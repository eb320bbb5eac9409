/** WRITE_ROWS_EVENT, UPDATE_ROWS_EVENT and DELETE_ROWS_EVENT (versions 1
    and 2): the table id, flags and extra data of the post-header, the
    column count and the columns-present bitmap, then row images until
    the bytes left cannot hold another null bitmap and the checksum.
    Every row image is a null bitmap followed by the value of every
    column of the cached table definition whose null bit is clear. */
module RowsEvents {
  import opened Wrappers
  import opened Java
  import opened ParserHelper
  import opened EventTypes
  import opened EventBodies
  import opened ColumnDefines
  import opened RowImages
  import opened ColumnValues
  import opened TableDefines
  import opened TableMaps
  import opened FileMetas

  const FlagsLength: int := 2
  const ExtraDataLength: int := 2

  // ------------------------------------------------------------ names and versions

  /** getRowsEventFlagsName: the names of the four flags of rows_event.h;
      any other value, combinations included, is its decimal text. */
  function RowsEventFlagsName(value: int): (r: string)
    ensures value == 1 ==> r == " STMT_END_F"
    ensures value == 2 ==> r == "NO_FOREIGN_KEY_CHECKS_F"
    ensures value == 4 ==> r == "RELAXED_UNIQUE_CHECKS_F"
    ensures value == 8 ==> r == "COMPLETE_ROWS_F"
    ensures value != 1 && value != 2 && value != 4 && value != 8 ==> r == LongToString(value)
  {
    if value == 1 then " STMT_END_F"
    else if value == 2 then "NO_FOREIGN_KEY_CHECKS_F"
    else if value == 4 then "RELAXED_UNIQUE_CHECKS_F"
    else if value == 8 then "COMPLETE_ROWS_F"
    else LongToString(value)
  }

  /** No two flag values share a name: the names start with a space or a
      capital letter, the decimal texts with a digit or '-', and a decimal
      text parses back to its value. */
  lemma RowsEventFlagsNameInjective(a: int, b: int)
    requires IsInt(a) && IsInt(b) && RowsEventFlagsName(a) == RowsEventFlagsName(b)
    ensures a == b
  {
    var named := (x: int) => x == 1 || x == 2 || x == 4 || x == 8;
    if !named(a) && !named(b) {
      ParseLongToString(a);
      ParseLongToString(b);
    }
  }

  /** getRowEventVersion: 0 for servers before 5.1.15, 1 up to 5.6, 2 from
      5.6 on, by compareVersion. */
  function RowEventVersion(serverVersion: string): (v: int)
    ensures v == 0 || v == 1 || v == 2
  {
    if CompareVersionSpec(serverVersion, "5.6") < 0 then
      if CompareVersionSpec(serverVersion, "5.1.15") < 0 then 0 else 1
    else 2
  }

  /** The three versions follow the order of the server versions: 2 for
      5.6 and everything above it, 0 for everything below 5.1.15. */
  lemma RowEventVersionOrder(serverVersion: string)
    ensures RowEventVersion(serverVersion) == 2 <==> CompareVersionSpec("5.6", serverVersion) <= 0
    ensures RowEventVersion(serverVersion) == 0 ==> CompareVersionSpec("5.1.15", serverVersion) == 1
    ensures RowEventVersion(serverVersion) == 1 ==>
      CompareVersionSpec("5.1.15", serverVersion) <= 0 && CompareVersionSpec("5.6", serverVersion) == 1
  {
    CompareVersionAntisymmetric(serverVersion, "5.6");
    CompareVersionAntisymmetric(serverVersion, "5.1.15");
  }

  /** getRowEventVersion as it runs, calling compareVersion. */
  method GetRowEventVersion(serverVersion: string) returns (v: int)
    ensures v == RowEventVersion(serverVersion)
  {
    var c := CompareVersion(serverVersion, "5.6");
    if c < 0 {
      c := CompareVersion(serverVersion, "5.1.15");
      if c < 0 {
        v := 0;
      } else {
        v := 1;
      }
    } else {
      v := 2;
    }
  }

  /** The version of the server that wrote the file: compareVersion on a
      null version throws. */
  function RowEventVersionOf(serverVersion: Option<string>): (r: Result<int>)
    ensures serverVersion.None? ==> r == Err(NullPointer)
    ensures serverVersion.Some? ==> r == Ok(RowEventVersion(serverVersion.value))
  {
    match serverVersion
    case None => Err(NullPointer)
    case Some(s) => Ok(RowEventVersion(s))
  }

  /** `(n + 7) / 8` in int arithmetic: the bytes of a bitmap of n bits. */
  function BitmapLength(n: int): (r: int)
    ensures 0 <= n < 0x7fff_fff9 ==> r == (n + 7) / 8 && 0 <= r
  {
    if 0 <= n < 0x7fff_fff9 then
      Int32Identity(n + 7);
      Quot(Int32(n + 7), 8)
    else Quot(Int32(n + 7), 8)
  }

  // ------------------------------------------------------------ the post-header and the bitmaps

  /** What the constructor reads before the row images. The present set is
      `getBitSet(...).get(0, columnCount)`: the bits of presentBitmap below
      columnCount. */
  datatype RowsHead = RowsHead(
    tableId: int,
    flags: int,
    version: int,
    extraData: Option<seq<byte>>,
    columnCount: nat,
    presentBitmap: seq<byte>,
    presentColumns: nat,
    next: int)
  {
    predicate Present(i: int) { 0 <= i < columnCount && BitSetGet(presentBitmap, i) }
  }

  /** The table id (4 bytes when TABLE_MAP_EVENT's post-header is 6 long,
      else 6), the 2 flag bytes, and the rest after the server version
      fixes the row-event version. */
  function HeadOf(bodyData: seq<byte>, order: ByteOrder, postHeaderLength: int, serverVersion: Option<string>)
    : (r: Result<RowsHead>)
    ensures r.Ok? ==> r.value.presentColumns <= r.value.columnCount
  {
    var w := IdWidth(postHeaderLength);
    match GetUnsignedLongAt(bodyData, 0, w, order)
    case Err(e) => Err(e)
    case Ok(tableId) =>
      match GetUnsignedIntegerAt(bodyData, w, w + FlagsLength, order)
      case Err(e) => Err(e)
      case Ok(flags) =>
        match RowEventVersionOf(serverVersion)
        case Err(e) => Err(e)
        case Ok(version) => HeadAfterFlags(bodyData, order, tableId, flags, version, w + FlagsLength)
  }

  /** Version 2 events carry 2 bytes of extra data before the column count. */
  function HeadAfterFlags(bodyData: seq<byte>, order: ByteOrder, tableId: int, flags: int, version: int, p: int)
    : (r: Result<RowsHead>)
    ensures r.Ok? ==> r.value.presentColumns <= r.value.columnCount
  {
    if version == 2 then
      match CopyOfRange(bodyData, p, p + ExtraDataLength)
      case Err(e) => Err(e)
      case Ok(extra) => HeadAfterExtra(bodyData, order, tableId, flags, version, Some(extra), p + ExtraDataLength)
    else
      HeadAfterExtra(bodyData, order, tableId, flags, version, None, p)
  }

  /** The column count: getUnsignedInteger of the packed integer's bytes,
      marker byte included. */
  function HeadAfterExtra(bodyData: seq<byte>, order: ByteOrder, tableId: int, flags: int, version: int,
                          extraData: Option<seq<byte>>, p: int)
    : (r: Result<RowsHead>)
    ensures r.Ok? ==> r.value.presentColumns <= r.value.columnCount
  {
    match GetPackedInteger(bodyData, p)
    case Err(e) => Err(e)
    case Ok(rawColumnCount) =>
      match GetUnsignedInteger(rawColumnCount, order)
      case Err(e) => Err(e)
      case Ok(columnCount) =>
        HeadAfterCount(bodyData, tableId, flags, version, extraData, columnCount, p + |rawColumnCount|)
  }

  /** The one present bitmap, `(columnCount + 7) / 8` bytes; a negative
      count fails in the copy or in `BitSet.get(0, columnCount)`. */
  function HeadAfterCount(bodyData: seq<byte>, tableId: int, flags: int, version: int,
                          extraData: Option<seq<byte>>, columnCount: int, p: int)
    : (r: Result<RowsHead>)
    ensures r.Ok? ==> r.value.presentColumns <= r.value.columnCount
    ensures columnCount < 0 ==> r.Err?
  {
    var length := BitmapLength(columnCount);
    match CopyOfRange(bodyData, p, p + length)
    case Err(e) => Err(e)
    case Ok(bits) =>
      if columnCount < 0 then Err(IndexOutOfBounds)
      else Ok(RowsHead(tableId, flags, version, extraData, columnCount, bits, Cardinality(bits, columnCount), p + length))
  }

  /** The post-header and the present bitmap as the constructor reads them. */
  method ReadRowsHead(bodyData: seq<byte>, order: ByteOrder, postHeaderLength: int, serverVersion: Option<string>)
    returns (r: Result<RowsHead>)
    ensures r == HeadOf(bodyData, order, postHeaderLength, serverVersion)
  {
    var pos := 0;
    var tableId: int;
    if postHeaderLength == 6 {
      tableId := GetUnsignedLongAt(bodyData, pos, pos + 4, order).value;
      pos := pos + 4;
    } else {
      tableId := GetUnsignedLongAt(bodyData, pos, pos + 6, order).value;
      pos := pos + 6;
    }
    var flags :- GetUnsignedIntegerAt(bodyData, pos, pos + FlagsLength, order);
    pos := pos + FlagsLength;
    if serverVersion.None? {
      return Err(NullPointer);
    }
    var version := GetRowEventVersion(serverVersion.value);
    r := ReadExtraData(bodyData, order, tableId, flags, version, pos);
  }

  method ReadExtraData(bodyData: seq<byte>, order: ByteOrder, tableId: int, flags: int, version: int, p: int)
    returns (r: Result<RowsHead>)
    ensures r == HeadAfterFlags(bodyData, order, tableId, flags, version, p)
  {
    var pos := p;
    var extraData := None;
    if version == 2 {
      var extra :- CopyOfRange(bodyData, pos, pos + ExtraDataLength);
      extraData := Some(extra);
      pos := pos + ExtraDataLength;
    }
    r := ReadPresentBitmap(bodyData, order, tableId, flags, version, extraData, pos);
  }

  method ReadPresentBitmap(bodyData: seq<byte>, order: ByteOrder, tableId: int, flags: int, version: int,
                           extraData: Option<seq<byte>>, p: int)
    returns (r: Result<RowsHead>)
    ensures r == HeadAfterExtra(bodyData, order, tableId, flags, version, extraData, p)
  {
    var rawColumnCount := GetPackedInteger(bodyData, p);
    match rawColumnCount
    case Err(e) =>
      r := Err(e);
    case Ok(raw) =>
      var columnCount := GetUnsignedInteger(raw, order).value;
      r := ReadPresentBits(bodyData, tableId, flags, version, extraData, columnCount, p + |raw|);
  }

  method ReadPresentBits(bodyData: seq<byte>, tableId: int, flags: int, version: int,
                         extraData: Option<seq<byte>>, columnCount: int, p: int)
    returns (r: Result<RowsHead>)
    ensures r == HeadAfterCount(bodyData, tableId, flags, version, extraData, columnCount, p)
  {
    var presentBitMapLength := BitmapLength(columnCount);
    var bits :- CopyOfRange(bodyData, p, p + presentBitMapLength);
    if columnCount < 0 {
      return Err(IndexOutOfBounds);
    }
    var presentColumns := Cardinality(bits, columnCount);
    r := Ok(RowsHead(tableId, flags, version, extraData, columnCount, bits, presentColumns, p + presentBitMapLength));
  }

  // ------------------------------------------------------------ one row image

  /** How a column whose null bit is clear is read: from a cursor, with its
      define and charset, to its value and the cursor after it. */
  type ColumnReader = (int, ColumnDefine, Option<string>) -> Result<Cell>

  /** The switch of getRowImage on the column's type code. */
  function TypeSwitch(ctx: BodyContext): ColumnReader {
    (pos: int, colDef: ColumnDefine, charset: Option<string>) => ColumnCell(ctx.bodyData, pos, colDef, charset, ctx.order)
  }

  /** A reader that never moves the cursor back. */
  ghost predicate Advances(read: ColumnReader) {
    forall pos, colDef, charset :: read(pos, colDef, charset).Ok? ==> read(pos, colDef, charset).value.next >= pos
  }

  /** The type switch reads forward. */
  lemma TypeSwitchAdvances(ctx: BodyContext)
    ensures Advances(TypeSwitch(ctx))
  {
    forall pos, colDef, charset | TypeSwitch(ctx)(pos, colDef, charset).Ok?
      ensures TypeSwitch(ctx)(pos, colDef, charset).value.next >= pos
    {
      assert TypeSwitch(ctx)(pos, colDef, charset) == ColumnCell(ctx.bodyData, pos, colDef, charset, ctx.order);
    }
  }

  /** What a row image is read with besides its cursor: the body, whether
      strings are decoded, the file's default charset, and the column
      reader. */
  datatype ImageScope = ImageScope(ctx: BodyContext, decodeString: bool, defaultCharsetName: string, read: ColumnReader)

  /** The scope the constructor reads with: the file's settings and the type switch. */
  function ScopeOf(ctx: BodyContext, decodeString: bool, defaultCharsetName: string): (s: ImageScope)
    ensures s.ctx == ctx && s.decodeString == decodeString && s.defaultCharsetName == defaultCharsetName
    ensures s.read == TypeSwitch(ctx)
  {
    ImageScope(ctx, decodeString, defaultCharsetName, TypeSwitch(ctx))
  }

  /** The columns of a row image read so far, and the cursor after them. */
  datatype ImageColumns = ImageColumns(images: map<int, ColumnImage>, next: int)

  /** Every one of the first n columns has its null bit set. */
  predicate AllNull(nullBits: seq<byte>, n: nat) {
    forall i :: 0 <= i < n ==> BitSetGet(nullBits, i)
  }

  /** `tableDefine.getColumnDefine(col)`: the define stored under col, or null. */
  function ColumnDefineAt(columns: map<int, ColumnDefine>, col: int): (r: Option<ColumnDefine>)
    ensures r.Some? <==> col in columns
    ensures r.Some? ==> r.value == columns[col]
  {
    if col in columns then Some(columns[col]) else None
  }

  /** Column col of a row image. The charset is looked up on the column's
      define before the null bit is consulted, so with decodeString a
      missing define throws; otherwise only a column whose null bit is
      clear reads its define, and then its value. */
  function ColumnStep(scope: ImageScope, pos: int, nullBits: seq<byte>, colDef: Option<ColumnDefine>, col: nat)
    : (r: Result<Cell>)
    ensures colDef.None? && (scope.decodeString || !BitSetGet(nullBits, col)) ==> r == Err(NullPointer)
    ensures BitSetGet(nullBits, col) && (colDef.Some? || !scope.decodeString) ==> r == Ok(Cell(None, pos))
    ensures Advances(scope.read) && r.Ok? ==> r.value.next >= pos
  {
    if scope.decodeString && colDef.None? then Err(NullPointer)
    else if BitSetGet(nullBits, col) then Ok(Cell(None, pos))
    else if colDef.None? then Err(NullPointer)
    else
      var d := colDef.value;
      scope.read(pos, d, CharsetOf(d, scope.decodeString, scope.defaultCharsetName))
  }

  /** The column loop of getRowImage from column col on: column i's image
      is stored under i, and the cursor moves past what it read. */
  function ColumnsFrom(scope: ImageScope, pos: int, nullBits: seq<byte>, columns: map<int, ColumnDefine>,
                       col: nat, n: nat, acc: map<int, ColumnImage>)
    : (r: Result<ImageColumns>)
    ensures Advances(scope.read) && r.Ok? ==> r.value.next >= pos
    decreases n - col, 1
  {
    if col >= n then Ok(ImageColumns(acc, pos))
    else ColumnsAfter(scope, pos, nullBits, columns, col, n, acc, ColumnStep(scope, pos, nullBits, ColumnDefineAt(columns, col), col))
  }

  /** The column loop once column col gave step. */
  function ColumnsAfter(scope: ImageScope, pos: int, nullBits: seq<byte>, columns: map<int, ColumnDefine>,
                        col: nat, n: nat, acc: map<int, ColumnImage>, step: Result<Cell>)
    : (r: Result<ImageColumns>)
    requires col < n
    ensures Advances(scope.read) && r.Ok? && (step.Ok? ==> step.value.next >= pos) ==> r.value.next >= pos
    decreases n - col, 0
  {
    match step
    case Err(e) => Err(e)
    case Ok(cell) => ColumnsFrom(scope, cell.next, nullBits, columns, col + 1, n, acc[col := ColumnImage(col, cell.value)])
  }

  lemma ColumnsFromStep(scope: ImageScope, pos: int, nullBits: seq<byte>, columns: map<int, ColumnDefine>,
                        col: nat, n: nat, acc: map<int, ColumnImage>, step: Result<Cell>)
    requires col < n && step == ColumnStep(scope, pos, nullBits, ColumnDefineAt(columns, col), col)
    ensures step.Err? ==> ColumnsFrom(scope, pos, nullBits, columns, col, n, acc) == Err(step.error)
    ensures step.Ok? ==>
      ColumnsFrom(scope, pos, nullBits, columns, col, n, acc)
      == ColumnsFrom(scope, step.value.next, nullBits, columns, col + 1, n, MapPut(acc, col, ColumnImage(col, step.value.value)))
  {
  }

  /** getRowImage at startPos: the null bitmap of nullBitmapLength bytes,
      then the rest. */
  function RowImageOf(scope: ImageScope, startPos: int, tableId: int, nullBitmapLength: int,
                      table: Option<map<int, ColumnDefine>>)
    : (r: Result<RowImageValue>)
    ensures r.Ok? ==> r.value.tableId == tableId && r.value.startPos == startPos
    ensures r.Ok? ==> 0 <= nullBitmapLength
  {
    match CopyOfRange(scope.ctx.bodyData, startPos, startPos + nullBitmapLength)
    case Err(e) => Err(e)
    case Ok(nullBits) => RowImageWith(scope, startPos, tableId, startPos + nullBitmapLength, nullBits, table)
  }

  /** The rest of getRowImage with the cursor at pos after the null bitmap:
      the table's define from the cache (none cached is a null
      dereference), whether every column is null, and every column. */
  function RowImageWith(scope: ImageScope, startPos: int, tableId: int, pos: int, nullBits: seq<byte>,
                        table: Option<map<int, ColumnDefine>>)
    : (r: Result<RowImageValue>)
    ensures r.Ok? ==> r.value.tableId == tableId && r.value.startPos == startPos
    ensures Advances(scope.read) && r.Ok? ==> r.value.endPos >= pos
  {
    match table
    case None => Err(NullPointer)
    case Some(columns) =>
      match ColumnsFrom(scope, pos, nullBits, columns, 0, |columns|, map[])
      case Err(e) => Err(e)
      case Ok(c) => Ok(RowImageValue(tableId, startPos, c.next, AllNull(nullBits, |columns|), c.images))
  }

  lemma RowImageAfterBitmap(scope: ImageScope, startPos: int, tableId: int, nullBitmapLength: int,
                            table: Option<map<int, ColumnDefine>>, nullBits: seq<byte>)
    requires CopyOfRange(scope.ctx.bodyData, startPos, startPos + nullBitmapLength) == Ok(nullBits)
    ensures RowImageOf(scope, startPos, tableId, nullBitmapLength, table)
      == RowImageWith(scope, startPos, tableId, startPos + nullBitmapLength, nullBits, table)
  {
  }

  /** The column loop gives every column from col to n its own image,
      keyed and tagged by its index, a null one to each column whose null
      bit is set, and keeps the images it was given for other keys. */
  lemma {:induction false} ColumnsFromShape(scope: ImageScope, pos: int, nullBits: seq<byte>,
                                            columns: map<int, ColumnDefine>, col: nat, n: nat, acc: map<int, ColumnImage>)
    requires ColumnsFrom(scope, pos, nullBits, columns, col, n, acc).Ok?
    ensures var m := ColumnsFrom(scope, pos, nullBits, columns, col, n, acc).value.images;
      && (forall k :: k in m <==> k in acc || col <= k < n)
      && (forall k :: k in acc && !(col <= k < n) ==> m[k] == acc[k])
      && (forall i :: col <= i < n ==> m[i].columnId == i)
      && (forall i :: col <= i < n && BitSetGet(nullBits, i) ==> m[i].value.None?)
    decreases n - col, 1
  {
    if col < n {
      ColumnsAfterShape(scope, pos, nullBits, columns, col, n, acc, ColumnStep(scope, pos, nullBits, ColumnDefineAt(columns, col), col));
    }
  }

  lemma {:induction false} ColumnsAfterShape(scope: ImageScope, pos: int, nullBits: seq<byte>,
                                             columns: map<int, ColumnDefine>, col: nat, n: nat, acc: map<int, ColumnImage>,
                                             step: Result<Cell>)
    requires col < n
    requires step.Ok? && BitSetGet(nullBits, col) ==> step.value.value.None?
    requires ColumnsAfter(scope, pos, nullBits, columns, col, n, acc, step).Ok?
    ensures var m := ColumnsAfter(scope, pos, nullBits, columns, col, n, acc, step).value.images;
      && (forall k :: k in m <==> k in acc || col <= k < n)
      && (forall k :: k in acc && !(col <= k < n) ==> m[k] == acc[k])
      && (forall i :: col <= i < n ==> m[i].columnId == i)
      && (forall i :: col <= i < n && BitSetGet(nullBits, i) ==> m[i].value.None?)
    decreases n - col, 0
  {
    var cell := step.value;
    ColumnsFromShape(scope, cell.next, nullBits, columns, col + 1, n, acc[col := ColumnImage(col, cell.value)]);
  }

  /** A row image has an image for exactly the columns 0 to n - 1 of its
      table, each tagged with its own id; a column whose null bit is set is
      null; the image is all null when every column's bit is set; and it
      ends no earlier than its null bitmap. */
  lemma RowImageShape(scope: ImageScope, startPos: int, tableId: int, nullBitmapLength: int, columns: map<int, ColumnDefine>)
    requires RowImageOf(scope, startPos, tableId, nullBitmapLength, Some(columns)).Ok?
    ensures var img := RowImageOf(scope, startPos, tableId, nullBitmapLength, Some(columns)).value;
      var nullBits := CopyOfRange(scope.ctx.bodyData, startPos, startPos + nullBitmapLength).value;
      && (forall k :: k in img.columnImages <==> 0 <= k < |columns|)
      && (forall i :: 0 <= i < |columns| ==> img.columnImages[i].columnId == i)
      && (forall i :: 0 <= i < |columns| && BitSetGet(nullBits, i) ==> img.columnImages[i].value.None?)
      && (img.isAllNull <==> AllNull(nullBits, |columns|))
      && (Advances(scope.read) ==> img.endPos >= startPos + nullBitmapLength)
  {
    var nullBits := CopyOfRange(scope.ctx.bodyData, startPos, startPos + nullBitmapLength).value;
    ColumnsFromShape(scope, startPos + nullBitmapLength, nullBits, columns, 0, |columns|, map[]);
  }

  /** A run of null columns reads nothing past the null bitmap. */
  lemma {:induction false} NullColumnsReadNothing(scope: ImageScope, pos: int, nullBits: seq<byte>,
                                                  columns: map<int, ColumnDefine>, col: nat, n: nat, acc: map<int, ColumnImage>)
    requires forall i :: col <= i < n ==> BitSetGet(nullBits, i)
    requires scope.decodeString ==> forall i :: col <= i < n ==> i in columns
    ensures ColumnsFrom(scope, pos, nullBits, columns, col, n, acc).Ok?
    ensures ColumnsFrom(scope, pos, nullBits, columns, col, n, acc).value.next == pos
    decreases n - col
  {
    if col < n {
      assert ColumnStep(scope, pos, nullBits, ColumnDefineAt(columns, col), col) == Ok(Cell(None, pos));
      NullColumnsReadNothing(scope, pos, nullBits, columns, col + 1, n, acc[col := ColumnImage(col, None)]);
    }
  }

  /** An image whose columns are all null takes only its null bitmap. */
  lemma AllNullImageSpan(scope: ImageScope, startPos: int, tableId: int, nullBitmapLength: int, columns: map<int, ColumnDefine>)
    requires 0 <= startPos <= |scope.ctx.bodyData| && 0 <= nullBitmapLength
    requires AllNull(CopyOfRange(scope.ctx.bodyData, startPos, startPos + nullBitmapLength).value, |columns|)
    requires scope.decodeString ==> forall i :: 0 <= i < |columns| ==> i in columns
    ensures RowImageOf(scope, startPos, tableId, nullBitmapLength, Some(columns)).Ok?
    ensures var img := RowImageOf(scope, startPos, tableId, nullBitmapLength, Some(columns)).value;
      img.isAllNull && img.endPos == startPos + nullBitmapLength
  {
    var nullBits := CopyOfRange(scope.ctx.bodyData, startPos, startPos + nullBitmapLength).value;
    NullColumnsReadNothing(scope, startPos + nullBitmapLength, nullBits, columns, 0, |columns|, map[]);
  }

  // ------------------------------------------------------------ the row images

  /** The row loop of the constructor from pos on: it stops when fewer
      bytes than a null bitmap and the checksum remain; otherwise it reads
      an image, keeps it unless it is all null, and goes on from its end.
      An image that ends where it started would be read again for ever. */
  function ImagesFrom(scope: ImageScope, pos: int, tableId: int, nullBitmapLength: int,
                      table: Option<map<int, ColumnDefine>>, acc: seq<RowImageValue>)
    : (r: Result<seq<RowImageValue>>)
    ensures r.Ok? ==> |r.value| >= |acc| && r.value[..|acc|] == acc
    decreases scope.ctx.eventBodyLength - pos - (scope.ctx.checksumLength + nullBitmapLength), 1
  {
    if scope.ctx.eventBodyLength - pos < scope.ctx.checksumLength + nullBitmapLength then Ok(acc)
    else ImagesAfter(scope, pos, tableId, nullBitmapLength, table, acc, RowImageOf(scope, pos, tableId, nullBitmapLength, table))
  }

  /** The row loop once the image at pos was read as image. */
  function ImagesAfter(scope: ImageScope, pos: int, tableId: int, nullBitmapLength: int,
                       table: Option<map<int, ColumnDefine>>, acc: seq<RowImageValue>, image: Result<RowImageValue>)
    : (r: Result<seq<RowImageValue>>)
    requires scope.ctx.eventBodyLength - pos >= scope.ctx.checksumLength + nullBitmapLength
    ensures r.Ok? ==> |r.value| >= |acc| && r.value[..|acc|] == acc
    decreases scope.ctx.eventBodyLength - pos - (scope.ctx.checksumLength + nullBitmapLength), 0
  {
    match image
    case Err(e) => Err(e)
    case Ok(img) =>
      if img.endPos <= pos then Err(Diverges)
      else
        var kept := if img.isAllNull then acc else acc + [img];
        ImagesFrom(scope, img.endPos, tableId, nullBitmapLength, table, kept)
  }

  lemma ImagesFromStep(scope: ImageScope, pos: int, tableId: int, nullBitmapLength: int,
                       table: Option<map<int, ColumnDefine>>, acc: seq<RowImageValue>, image: Result<RowImageValue>)
    requires scope.ctx.eventBodyLength - pos >= scope.ctx.checksumLength + nullBitmapLength
    requires image == RowImageOf(scope, pos, tableId, nullBitmapLength, table)
    ensures ImagesFrom(scope, pos, tableId, nullBitmapLength, table, acc)
      == ImagesAfter(scope, pos, tableId, nullBitmapLength, table, acc, image)
  {
  }

  /** One pass of the row loop, case by case. */
  lemma ImagesFromCases(scope: ImageScope, pos: int, tableId: int, nullBitmapLength: int,
                        table: Option<map<int, ColumnDefine>>, acc: seq<RowImageValue>, image: Result<RowImageValue>)
    requires scope.ctx.eventBodyLength - pos >= scope.ctx.checksumLength + nullBitmapLength
    requires image == RowImageOf(scope, pos, tableId, nullBitmapLength, table)
    ensures image.Err? ==> ImagesFrom(scope, pos, tableId, nullBitmapLength, table, acc) == Err(image.error)
    ensures image.Ok? && image.value.endPos <= pos ==>
      ImagesFrom(scope, pos, tableId, nullBitmapLength, table, acc) == Err(Diverges)
    ensures image.Ok? && image.value.endPos > pos && image.value.isAllNull ==>
      ImagesFrom(scope, pos, tableId, nullBitmapLength, table, acc)
        == ImagesFrom(scope, image.value.endPos, tableId, nullBitmapLength, table, acc)
    ensures image.Ok? && image.value.endPos > pos && !image.value.isAllNull ==>
      ImagesFrom(scope, pos, tableId, nullBitmapLength, table, acc)
        == ImagesFrom(scope, image.value.endPos, tableId, nullBitmapLength, table, acc + [image.value])
  {
    ImagesFromStep(scope, pos, tableId, nullBitmapLength, table, acc, image);
  }

  /** The images the loop keeps after the ones it was given: each is the
      image read at its own start, not all null, starts at or after pos
      with room for a null bitmap and the checksum, and ends after it
      starts; and no kept image starts before an earlier one ends. */
  predicate KeptAfter(scope: ImageScope, pos: int, tableId: int, nullBitmapLength: int,
                      table: Option<map<int, ColumnDefine>>, from: nat, r: seq<RowImageValue>)
  {
    && (forall i :: from <= i < |r| ==>
         && RowImageOf(scope, r[i].startPos, tableId, nullBitmapLength, table) == Ok(r[i])
         && !r[i].isAllNull
         && pos <= r[i].startPos < r[i].endPos
         && scope.ctx.eventBodyLength - r[i].startPos >= scope.ctx.checksumLength + nullBitmapLength)
    && (forall i, j :: 0 <= i < j < |r| && from <= j ==> r[i].endPos <= r[j].startPos)
  }

  lemma {:induction false} ImagesFromShape(scope: ImageScope, pos: int, tableId: int, nullBitmapLength: int,
                                           table: Option<map<int, ColumnDefine>>, acc: seq<RowImageValue>)
    requires ImagesFrom(scope, pos, tableId, nullBitmapLength, table, acc).Ok?
    requires forall i :: 0 <= i < |acc| ==> acc[i].endPos <= pos
    ensures KeptAfter(scope, pos, tableId, nullBitmapLength, table, |acc|, ImagesFrom(scope, pos, tableId, nullBitmapLength, table, acc).value)
    decreases scope.ctx.eventBodyLength - pos - (scope.ctx.checksumLength + nullBitmapLength), 1
  {
    if scope.ctx.eventBodyLength - pos >= scope.ctx.checksumLength + nullBitmapLength {
      ImagesAfterShape(scope, pos, tableId, nullBitmapLength, table, acc, RowImageOf(scope, pos, tableId, nullBitmapLength, table));
    }
  }

  lemma {:induction false} ImagesAfterShape(scope: ImageScope, pos: int, tableId: int, nullBitmapLength: int,
                                            table: Option<map<int, ColumnDefine>>, acc: seq<RowImageValue>,
                                            image: Result<RowImageValue>)
    requires scope.ctx.eventBodyLength - pos >= scope.ctx.checksumLength + nullBitmapLength
    requires image == RowImageOf(scope, pos, tableId, nullBitmapLength, table)
    requires ImagesAfter(scope, pos, tableId, nullBitmapLength, table, acc, image).Ok?
    requires forall i :: 0 <= i < |acc| ==> acc[i].endPos <= pos
    ensures KeptAfter(scope, pos, tableId, nullBitmapLength, table, |acc|,
                      ImagesAfter(scope, pos, tableId, nullBitmapLength, table, acc, image).value)
    decreases scope.ctx.eventBodyLength - pos - (scope.ctx.checksumLength + nullBitmapLength), 0
  {
    var img := image.value;
    var kept := if img.isAllNull then acc else acc + [img];
    ImagesFromShape(scope, img.endPos, tableId, nullBitmapLength, table, kept);
    var r := ImagesAfter(scope, pos, tableId, nullBitmapLength, table, acc, image).value;
    assert r == ImagesFrom(scope, img.endPos, tableId, nullBitmapLength, table, kept).value;
    assert r[..|kept|] == kept;
    if !img.isAllNull {
      assert r[|acc|] == img;
    }
  }

  /** A table with no columns gives images of no bytes when the present
      set is empty: once one fits, the loop would read it for ever. */
  lemma EmptyTableDiverges(scope: ImageScope, pos: int, tableId: int, acc: seq<RowImageValue>)
    requires 0 <= pos <= |scope.ctx.bodyData|
    requires scope.ctx.eventBodyLength - pos >= scope.ctx.checksumLength
    ensures ImagesFrom(scope, pos, tableId, 0, Some(map[]), acc) == Err(Diverges)
  {
    assert CopyOfRange(scope.ctx.bodyData, pos, pos) == Ok([]);
    assert ColumnsFrom(scope, pos, [], map[], 0, 0, map[]) == Ok(ImageColumns(map[], pos));
  }

  // ------------------------------------------------------------ the whole event

  /** The constructor's result: the post-header and bitmap fields, and the
      row images it keeps. */
  datatype RowsEvent = RowsEvent(head: RowsHead, rowImages: seq<RowImageValue>)

  /** The RowsEventBody constructor: TABLE_MAP_EVENT's post-header length
      (looking it up may throw), the head, then the row loop over the table
      cached under the head's table id. */
  function RowsOf(scope: ImageScope, postHeaderLength: Result<int>, serverVersion: Option<string>,
                  tables: map<int, map<int, ColumnDefine>>)
    : (r: Result<RowsEvent>)
  {
    match postHeaderLength
    case Err(e) => Err(e)
    case Ok(php) =>
      match HeadOf(scope.ctx.bodyData, scope.ctx.order, php, serverVersion)
      case Err(e) => Err(e)
      case Ok(head) =>
        match ImagesFrom(scope, head.next, head.tableId, BitmapLength(head.presentColumns), Lookup(tables, head.tableId), [])
        case Err(e) => Err(e)
        case Ok(images) => Ok(RowsEvent(head, images))
  }

  /** The columns of the table cached under tableId, or None. */
  function Lookup(tables: map<int, map<int, ColumnDefine>>, tableId: int): (r: Option<map<int, ColumnDefine>>)
    ensures r.Some? <==> tableId in tables
    ensures r.Some? ==> r.value == tables[tableId]
  {
    if tableId in tables then Some(tables[tableId]) else None
  }

  /** Every row image of a decoded rows event belongs to the head's table,
      is not all null, has one column image per column of that table, null
      where the null bit is set, and the images follow each other through
      the body without overlapping. */
  lemma RowsShape(scope: ImageScope, postHeaderLength: Result<int>, serverVersion: Option<string>,
                  tables: map<int, map<int, ColumnDefine>>)
    requires RowsOf(scope, postHeaderLength, serverVersion, tables).Ok?
    ensures var e := RowsOf(scope, postHeaderLength, serverVersion, tables).value;
      var images := e.rowImages;
      && (images != [] ==> e.head.tableId in tables)
      && (forall i :: 0 <= i < |images| ==>
           && images[i].tableId == e.head.tableId
           && !images[i].isAllNull
           && e.head.next <= images[i].startPos < images[i].endPos
           && (forall k :: k in images[i].columnImages <==> 0 <= k < |tables[e.head.tableId]|)
           && (forall k :: k in images[i].columnImages ==> images[i].columnImages[k].columnId == k))
      && (forall i, j :: 0 <= i < j < |images| ==> images[i].endPos <= images[j].startPos)
  {
    var php := postHeaderLength.value;
    var head := HeadOf(scope.ctx.bodyData, scope.ctx.order, php, serverVersion).value;
    var length := BitmapLength(head.presentColumns);
    var table := Lookup(tables, head.tableId);
    var images := ImagesFrom(scope, head.next, head.tableId, length, table, []).value;
    ImagesFromShape(scope, head.next, head.tableId, length, table, []);
    forall i | 0 <= i < |images|
      ensures head.tableId in tables
      ensures forall k :: k in images[i].columnImages <==> 0 <= k < |tables[head.tableId]|
      ensures forall k :: k in images[i].columnImages ==> images[i].columnImages[k].columnId == k
    {
      assert RowImageOf(scope, images[i].startPos, head.tableId, length, table) == Ok(images[i]);
      assert table.Some?;
      RowImageShape(scope, images[i].startPos, head.tableId, length, table.value);
    }
  }

  // ------------------------------------------------------------ the decoder

  /** getRowImage's all-null test: the loop stops at the first clear bit. */
  method IsAllNull(nullBits: seq<byte>, columnCount: nat) returns (isAllNull: bool)
    ensures isAllNull == AllNull(nullBits, columnCount)
  {
    isAllNull := true;
    var i := 0;
    while i < columnCount
      invariant 0 <= i <= columnCount
      invariant AllNull(nullBits, i)
    {
      if !BitSetGet(nullBits, i) {
        isAllNull := false;
        break;
      }
      i := i + 1;
    }
  }

  /** One pass of getRowImage's column loop: the charset, then the null
      bit, then the switch on the column's type. */
  method ReadImageColumn(scope: ImageScope, pos: int, nullBits: seq<byte>, colDef: Option<ColumnDefine>, col: nat)
    returns (r: Result<Cell>)
    requires scope.read == TypeSwitch(scope.ctx)
    ensures r == ColumnStep(scope, pos, nullBits, colDef, col)
  {
    var charsetName: Option<string> := None;
    if scope.decodeString {
      if colDef.None? {
        return Err(NullPointer);
      }
      charsetName := Some(scope.defaultCharsetName);
      if colDef.value.charsetName.Some? {
        charsetName := colDef.value.charsetName;
      }
    }
    if BitSetGet(nullBits, col) {
      return Ok(Cell(None, pos));
    }
    if colDef.None? {
      return Err(NullPointer);
    }
    assert charsetName == CharsetOf(colDef.value, scope.decodeString, scope.defaultCharsetName);
    r := ReadColumn(scope.ctx.bodyData, pos, colDef.value, charsetName, scope.ctx.order);
    assert r == scope.read(pos, colDef.value, charsetName);
  }

  /** getRowImage's column loop: every column of the table, read into the
      image in place. */
  method FillColumns(rowImage: RowImage, scope: ImageScope, startPos: int, nullBits: seq<byte>, tableDefine: TableDefine)
    returns (r: Result<ImageColumns>)
    requires scope.read == TypeSwitch(scope.ctx)
    modifies rowImage
    ensures r == ColumnsFrom(scope, startPos, nullBits, tableDefine.columns, 0, |tableDefine.columns|, old(rowImage.columnImages))
    ensures r.Ok? ==> rowImage.columnImages == r.value.images
    ensures rowImage.startPos == old(rowImage.startPos) && rowImage.endPos == old(rowImage.endPos)
    ensures rowImage.isAllNull == old(rowImage.isAllNull)
  {
    var columns := tableDefine.columns;
    var columnCount := tableDefine.ColumnCount();
    var pos := startPos;
    var col := 0;
    while col < columnCount
      invariant 0 <= col <= columnCount
      invariant rowImage.startPos == old(rowImage.startPos) && rowImage.endPos == old(rowImage.endPos)
      invariant rowImage.isAllNull == old(rowImage.isAllNull)
      invariant ColumnsFrom(scope, startPos, nullBits, columns, 0, columnCount, old(rowImage.columnImages))
        == ColumnsFrom(scope, pos, nullBits, columns, col, columnCount, rowImage.columnImages)
    {
      var colDef := tableDefine.GetColumnDefine(col);
      var cell := ReadImageColumn(scope, pos, nullBits, colDef, col);
      ColumnsFromStep(scope, pos, nullBits, columns, col, columnCount, rowImage.columnImages, cell);
      match cell
      case Err(e) =>
        return Err(e);
      case Ok(c) =>
        rowImage.SetColumnImage(ColumnImage(col, c.value));
        pos := c.next;
        col := col + 1;
    }
    r := Ok(ImageColumns(rowImage.columnImages, pos));
  }

  /** The column defines of every cached table map, keyed by table id. */
  function CachedColumns(meta: BinlogFileMeta): (m: map<int, map<int, ColumnDefine>>)
    reads meta, set id | id in meta.tableMapEventBodys :: meta.tableMapEventBodys[id].tableDefine
    ensures m.Keys == meta.tableMapEventBodys.Keys
    ensures forall id :: id in m ==> m[id] == meta.tableMapEventBodys[id].tableDefine.columns
  {
    map id | id in meta.tableMapEventBodys :: meta.tableMapEventBodys[id].tableDefine.columns
  }

  /** The image r holds the value spec gives, or r is the error spec is. */
  predicate Holds(r: Result<RowImage>, spec: Result<RowImageValue>)
    reads if r.Ok? then {r.value} else {}
  {
    match spec
    case Err(e) => r == Err(e)
    case Ok(v) => r.Ok? && r.value.Snapshot() == v
  }

  /** The column defines of the table map cached under tableId, or None. */
  function TableColumns(meta: BinlogFileMeta, tableId: int): (r: Option<map<int, ColumnDefine>>)
    reads meta, if tableId in meta.tableMapEventBodys then {meta.tableMapEventBodys[tableId].tableDefine} else {}
    ensures r == Lookup(CachedColumns(meta), tableId)
  {
    if tableId in meta.tableMapEventBodys then Some(meta.tableMapEventBodys[tableId].tableDefine.columns) else None
  }

  /** getRowImage: a fresh RowImage filled from the null bitmap at startPos
      and the table definition cached for tableId. */
  method GetRowImage(scope: ImageScope, startPos: int, tableId: int, presentColumns: int, meta: BinlogFileMeta)
    returns (r: Result<RowImage>)
    requires scope.read == TypeSwitch(scope.ctx)
    ensures Holds(r, RowImageOf(scope, startPos, tableId, BitmapLength(presentColumns), TableColumns(meta, tableId)))
    ensures r.Ok? ==> fresh(r.value)
  {
    var pos := startPos;
    var nullBitMapLength := BitmapLength(presentColumns);
    var nullBitSet := CopyOfRange(scope.ctx.bodyData, pos, pos + nullBitMapLength);
    match nullBitSet
    case Err(e) =>
      return Err(e);
    case Ok(nullBits) =>
      pos := pos + nullBitMapLength;
      r := CompleteRowImage(scope, startPos, tableId, pos, nullBits, meta);
      RowImageAfterBitmap(scope, startPos, tableId, nullBitMapLength, TableColumns(meta, tableId), nullBits);
  }

  /** getRowImage after the null bitmap: a new image at startPos, the table
      lookup, the all-null test and the column loop. */
  method CompleteRowImage(scope: ImageScope, startPos: int, tableId: int, pos: int, nullBits: seq<byte>,
                          meta: BinlogFileMeta)
    returns (r: Result<RowImage>)
    requires scope.read == TypeSwitch(scope.ctx)
    ensures Holds(r, RowImageWith(scope, startPos, tableId, pos, nullBits, TableColumns(meta, tableId)))
    ensures r.Ok? ==> fresh(r.value)
  {
    var tableMapEventData := meta.GetTableMapEventBody(tableId);
    if tableMapEventData.None? {
      return Err(NullPointer);
    }
    var tableDefine := tableMapEventData.value.tableDefine;
    var rowImage := new RowImage(tableId);
    rowImage.SetStartPosition(startPos);
    var columnCount := tableDefine.ColumnCount();
    var isAllNull := IsAllNull(nullBits, columnCount);
    rowImage.SetNullImage(isAllNull);
    var filled := FillColumns(rowImage, scope, pos, nullBits, tableDefine);
    match filled
    case Err(e) =>
      return Err(e);
    case Ok(c) =>
      rowImage.SetEndPosition(c.next);
      r := Ok(rowImage);
  }

  /** The values of a list of row images, in order. */
  function Snapshots(images: seq<RowImage>): (vs: seq<RowImageValue>)
    reads set i | 0 <= i < |images| :: images[i]
    ensures |vs| == |images|
    ensures forall i :: 0 <= i < |images| ==> vs[i] == images[i].Snapshot()
  {
    if images == [] then [] else Snapshots(images[..|images| - 1]) + [images[|images| - 1].Snapshot()]
  }

  /** Every image of r holds the value spec gives, in order, or r is the
      error spec is. */
  predicate HoldsAll(r: Result<seq<RowImage>>, spec: Result<seq<RowImageValue>>)
    reads if r.Ok? then set i | 0 <= i < |r.value| :: r.value[i] else {}
  {
    match spec
    case Err(e) => r == Err(e)
    case Ok(vs) => r.Ok? && Snapshots(r.value) == vs
  }

  /** The constructor's row loop: while a null bitmap and the checksum still
      fit, read an image at pos, keep it unless it is all null, and go on
      from its end. */
  method ReadRowImages(scope: ImageScope, startPos: int, tableId: int, presentColumns: int, meta: BinlogFileMeta)
    returns (r: Result<seq<RowImage>>)
    requires scope.read == TypeSwitch(scope.ctx)
    ensures HoldsAll(r, ImagesFrom(scope, startPos, tableId, BitmapLength(presentColumns), TableColumns(meta, tableId), []))
    ensures r.Ok? ==> forall i :: 0 <= i < |r.value| ==> fresh(r.value[i])
  {
    var nullBitMapLength := BitmapLength(presentColumns);
    ghost var table := TableColumns(meta, tableId);
    ghost var values: seq<RowImageValue> := [];
    var rowImages: seq<RowImage> := [];
    var pos := startPos;
    while true
      invariant table == TableColumns(meta, tableId)
      invariant |rowImages| == |values|
      invariant forall i :: 0 <= i < |rowImages| ==> fresh(rowImages[i])
      invariant forall i :: 0 <= i < |rowImages| ==> rowImages[i].Snapshot() == values[i]
      invariant ImagesFrom(scope, startPos, tableId, nullBitMapLength, table, [])
        == ImagesFrom(scope, pos, tableId, nullBitMapLength, table, values)
      decreases scope.ctx.eventBodyLength - pos - (scope.ctx.checksumLength + nullBitMapLength)
    {
      var remainBytes := scope.ctx.eventBodyLength - pos;
      if remainBytes < scope.ctx.checksumLength + nullBitMapLength {
        break;
      }
      var rowImage := GetRowImage(scope, pos, tableId, presentColumns, meta);
      ghost var spec := RowImageOf(scope, pos, tableId, nullBitMapLength, table);
      ImagesFromCases(scope, pos, tableId, nullBitMapLength, table, values, spec);
      match rowImage
      case Err(e) =>
        return Err(e);
      case Ok(image) =>
        if image.endPos <= pos {
          return Err(Diverges);
        }
        if !image.IsNullImage() {
          assert image.Snapshot() == spec.value;
          rowImages := rowImages + [image];
          values := values + [spec.value];
          assert rowImages[|rowImages| - 1] == image;
        }
        pos := image.endPos;
    }
    assert Snapshots(rowImages) == values;
    r := Ok(rowImages);
  }

  /** The object the constructor builds: the head and its kept row images. */
  datatype RowsEventBody = RowsEventBody(head: RowsHead, rowImages: seq<RowImage>)

  /** The server version text as the version comparison reads it, one
      character per byte. */
  function ServerVersionText(serverVersion: Option<seq<byte>>): (r: Option<string>)
    ensures r.Some? <==> serverVersion.Some?
    ensures r.Some? ==> |r.value| == |serverVersion.value|
  {
    match serverVersion
    case None => None
    case Some(v) => Some(ByteChars(v))
  }

  /** The body r holds the value spec gives, or r is the error spec is. */
  predicate HoldsEvent(r: Result<RowsEventBody>, spec: Result<RowsEvent>)
    reads if r.Ok? then set i | 0 <= i < |r.value.rowImages| :: r.value.rowImages[i] else {}
  {
    match spec
    case Err(e) => r == Err(e)
    case Ok(v) => r.Ok? && r.value.head == v.head && Snapshots(r.value.rowImages) == v.rowImages
  }

  /** new RowsEventBody(bodyData, header, meta): the head after the
      post-header length the file gives TABLE_MAP_EVENT, then the row
      images, under the file's string settings. */
  method DecodeRowsEvent(ctx: BodyContext, meta: BinlogFileMeta) returns (r: Result<RowsEventBody>)
    ensures HoldsEvent(r, RowsOf(ScopeOf(ctx, meta.decodeString, meta.defaultCharsetName),
                                 meta.GetPostHeaderLength(TableMapEvent), ServerVersionText(meta.serverVersion),
                                 CachedColumns(meta)))
    ensures r.Ok? ==> forall i :: 0 <= i < |r.value.rowImages| ==> fresh(r.value.rowImages[i])
  {
    var postHeaderLength :- meta.GetPostHeaderLength(TableMapEvent);
    var head :- ReadRowsHead(ctx.bodyData, ctx.order, postHeaderLength, ServerVersionText(meta.serverVersion));
    var scope := ScopeOf(ctx, meta.decodeString, meta.defaultCharsetName);
    var rowImages :- ReadRowImages(scope, head.next, head.tableId, head.presentColumns, meta);
    r := Ok(RowsEventBody(head, rowImages));
  }
}
