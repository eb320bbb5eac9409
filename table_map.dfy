/** TABLE_MAP_EVENT: the table id, schema and table names, and for every
    column its type code, type metadata and nullability, followed by the
    optional metadata block that may carry the column names. */
module TableMaps {
  import opened Wrappers
  import opened Java
  import opened ParserHelper
  import opened EventBodies
  import opened ColumnDefines
  import opened TableDefines
  import opened OptionalMetaDatas

  /** A decoded table map: the TableDefine it fills and the optional metadata. */
  datatype TableMapEventBody = TableMapEventBody(tableDefine: TableDefine, optionalMetaData: OptionalMetaData)

  /** What the constructor reads, stage by stage: the head, the columns
      part, the column names of the optional metadata, and the optional
      metadata itself. */
  datatype TableMap = TableMap(
    head: TableMapHead,
    part: ColumnsPart,
    columnNames: seq<seq<byte>>,
    optionalMetaData: OptionalMetaData)
  {
    function TableId(): int { head.tableId }
    /** The names as the TableDefine keeps them, trimmed. */
    function SchemaName(): seq<byte> { TrimBytes(head.schemaName) }
    function TableName(): seq<byte> { TrimBytes(head.tableName) }

    /** The TableDefine's columns: the defines of the columns part, then
        setColumnName(i, name i) for every column name. */
    function Columns(): map<int, ColumnDefine>
      requires |part.metas| == |part.types|
    {
      RenamedFrom(Defines(part), columnNames, 0)
    }
  }

  // ------------------------------------------------------------ fixed part

  /** The table id is 4 bytes when TABLE_MAP_EVENT's post-header is 6 bytes
      long (4 id + 2 flags), and 6 bytes otherwise. */
  function IdWidth(postHeaderLength: int): (r: int)
    ensures r == 4 <==> postHeaderLength == 6
    ensures r == 4 || r == 6
  {
    if postHeaderLength == 6 then 4 else 6
  }

  /** A name read at a cursor: its bytes before trimming and the position after it. */
  datatype Name = Name(raw: seq<byte>, next: int)

  /** getUnsignedInteger(bodyData, p, p + 1): the byte at p; at the very
      end of the body the zero-padded copy reads as 0. */
  function UnsignedByteAt(bodyData: seq<byte>, p: int): (r: Result<int>)
    ensures r.Ok? <==> 0 <= p <= |bodyData|
    ensures r.Ok? ==> 0 <= r.value < 256
  {
    if p < 0 || p > |bodyData| then Err(IndexOutOfBounds)
    else if p == |bodyData| then Ok(0)
    else Ok(bodyData[p] as int)
  }

  /** A one-byte length, that many bytes (zero-padded past the end of the
      body), and one skipped NUL byte. A length byte at the very end of the
      body reads as 0, but the name after it then fails to start. */
  function NameAt(bodyData: seq<byte>, p: int): (r: Result<Name>)
    ensures r.Ok? <==> 0 <= p < |bodyData|
    ensures r.Ok? ==> r.value.next == p + bodyData[p] + 2
    ensures r.Ok? ==> r.value.raw == CopyOfRange(bodyData, p + 1, p + 1 + bodyData[p]).value
  {
    match UnsignedByteAt(bodyData, p)
    case Err(e) => Err(e)
    case Ok(length) =>
      match CopyOfRange(bodyData, p + 1, p + 1 + length)
      case Err(e) => Err(e)
      case Ok(raw) => Ok(Name(raw, p + 1 + length + 1))
  }

  /** A name whose bytes lie inside the body is that slice of the body. */
  lemma NameAtInside(bodyData: seq<byte>, p: int)
    requires 0 <= p < |bodyData| && p + 1 + bodyData[p] <= |bodyData|
    ensures NameAt(bodyData, p).value.raw == bodyData[p + 1..p + 1 + bodyData[p]]
  {
    CopyOfRangeInside(bodyData, p + 1, p + 1 + bodyData[p]);
  }

  /** What the constructor reads before the column count; the names are
      kept as read, before trimming. */
  datatype TableMapHead = TableMapHead(tableId: int, schemaName: seq<byte>, tableName: seq<byte>, next: int)

  /** The table id, the two reserved bytes, and the schema and table names:
      they decode iff both length bytes lie inside the body, the schema name
      starts after the 2 reserved bytes and the table name right after the
      schema name's NUL. */
  function HeadOf(bodyData: seq<byte>, order: ByteOrder, postHeaderLength: int): (r: Result<TableMapHead>)
    ensures var s := IdWidth(postHeaderLength) + 2;
      r.Ok? <==> s < |bodyData| && s + bodyData[s] + 2 < |bodyData|
    ensures r.Ok? ==>
      var s := IdWidth(postHeaderLength) + 2;
      var t := s + bodyData[s] + 2;
      && t < |bodyData|
      && r.value.schemaName == NameAt(bodyData, s).value.raw
      && r.value.tableName == NameAt(bodyData, t).value.raw
      && r.value.next == t + bodyData[t] + 2
  {
    var width := IdWidth(postHeaderLength);
    match GetUnsignedLongAt(bodyData, 0, width, order)
    case Err(e) => Err(e)
    case Ok(tableId) =>
      match NameAt(bodyData, width + 2)
      case Err(e) => Err(e)
      case Ok(schema) =>
        match NameAt(bodyData, schema.next)
        case Err(e) => Err(e)
        case Ok(table) => Ok(TableMapHead(tableId, schema.raw, table.raw, table.next))
  }

  /** The table id is the unsigned decode of the first 4 or 6 bytes. */
  lemma HeadTableId(bodyData: seq<byte>, order: ByteOrder, postHeaderLength: int)
    requires HeadOf(bodyData, order, postHeaderLength).Ok?
    ensures var w := IdWidth(postHeaderLength);
      w <= |bodyData| && Ok(HeadOf(bodyData, order, postHeaderLength).value.tableId) == GetUnsignedLong(bodyData[..w], order)
  {
    CopyOfRangeInside(bodyData, 0, IdWidth(postHeaderLength));
  }

  // ------------------------------------------------------------ column metadata

  /** The width of a column's metadata, by type code: 1 byte for FLOAT,
      DOUBLE, BLOB, GEOMETRY, TIMESTAMP2, DATETIME2 and TIME2; 2 bytes for
      VARCHAR, BIT, NEWDECIMAL, VAR_STRING and STRING; none otherwise. */
  function MetaWidth(t: byte): (r: nat)
  {
    match t
    case 0x04 => 1
    case 0x05 => 1
    case 0xfc => 1
    case 0xff => 1
    case 0x11 => 1
    case 0x12 => 1
    case 0x13 => 1
    case 0x0f => 2
    case 0x10 => 2
    case 0xf6 => 2
    case 0xfd => 2
    case 0xfe => 2
    case _ => 0
  }

  /** Exactly 12 type codes carry metadata: 7 of width 1 and 5 of width 2. */
  lemma MetaWidthCodes(t: byte)
    ensures MetaWidth(t) <= 2
    ensures MetaWidth(t) == 1 <==> t in {0x04, 0x05, 0xfc, 0xff, 0x11, 0x12, 0x13}
    ensures MetaWidth(t) == 2 <==> t in {0x0f, 0x10, 0xf6, 0xfd, 0xfe}
  {
  }

  /** The bytes of column metadata that the types[i..j] take up. */
  function MetaSpan(types: seq<byte>, i: nat, j: nat): (r: nat)
    requires i <= j <= |types|
    decreases j - i
  {
    if i == j then 0 else MetaWidth(types[i]) + MetaSpan(types, i + 1, j)
  }

  /** The metadata of columns i.. taken from metaPos on, after the metadata
      of the columns before i. A column without metadata keeps none. */
  function ColumnMetas(bodyData: seq<byte>, metaPos: int, types: seq<byte>, i: nat,
                       done: seq<Option<seq<byte>>>): (r: Result<seq<Option<seq<byte>>>>)
    requires i <= |types|
    ensures r.Ok? ==> |r.value| == |done| + |types| - i && r.value[..|done|] == done
    decreases |types| - i
  {
    if i == |types| then Ok(done)
    else
      var width := MetaWidth(types[i]);
      if width == 0 then ColumnMetas(bodyData, metaPos, types, i + 1, done + [None])
      else ColumnMetasAfter(bodyData, metaPos, types, i, done, CopyOfRange(bodyData, metaPos, metaPos + width))
  }

  /** The rest of the metadata loop once column i's metadata has been copied. */
  function ColumnMetasAfter(bodyData: seq<byte>, metaPos: int, types: seq<byte>, i: nat,
                            done: seq<Option<seq<byte>>>, meta: Result<seq<byte>>): (r: Result<seq<Option<seq<byte>>>>)
    requires i < |types|
    ensures r.Ok? ==> |r.value| == |done| + |types| - i && r.value[..|done|] == done
    decreases |types| - i, 0
  {
    match meta
    case Err(e) => Err(e)
    case Ok(m) =>
      var r := ColumnMetas(bodyData, metaPos + MetaWidth(types[i]), types, i + 1, done + [Some(m)]);
      assert r.Ok? ==> r.value[..|done|] == r.value[..|done| + 1][..|done|];
      r
  }

  /** One pass of the metadata loop. */
  lemma ColumnMetasStep(bodyData: seq<byte>, metaPos: int, types: seq<byte>, i: nat, done: seq<Option<seq<byte>>>)
    requires i < |types|
    ensures var width := MetaWidth(types[i]);
      ColumnMetas(bodyData, metaPos, types, i, done) ==
        if width == 0 then ColumnMetas(bodyData, metaPos, types, i + 1, done + [None])
        else ColumnMetasAfter(bodyData, metaPos, types, i, done, CopyOfRange(bodyData, metaPos, metaPos + width))
  {
  }

  /** Column k's metadata is None iff its type has none, and otherwise the
      bytes at metaPos past the metadata of the columns before it, as wide
      as its type says. */
  lemma {:induction false} ColumnMetasLayout(bodyData: seq<byte>, metaPos: int, types: seq<byte>, i: nat,
                                             done: seq<Option<seq<byte>>>, k: nat)
    requires i <= k < |types|
    requires ColumnMetas(bodyData, metaPos, types, i, done).Ok?
    ensures var metas := ColumnMetas(bodyData, metaPos, types, i, done).value;
      var at := metaPos + MetaSpan(types, i, k);
      var width := MetaWidth(types[k]);
      && (metas[|done| + k - i].None? <==> width == 0)
      && (width > 0 ==> CopyOfRange(bodyData, at, at + width).Ok?
                        && metas[|done| + k - i] == Some(CopyOfRange(bodyData, at, at + width).value))
    decreases k - i
  {
    var width := MetaWidth(types[i]);
    ColumnMetasStep(bodyData, metaPos, types, i, done);
    var next := if width == 0 then None else Some(CopyOfRange(bodyData, metaPos, metaPos + width).value);
    var rest := ColumnMetas(bodyData, metaPos + width, types, i + 1, done + [next]);
    assert ColumnMetas(bodyData, metaPos, types, i, done) == rest;
    if k == i {
      assert rest.value[..|done| + 1] == done + [next];
      assert rest.value[|done|] == (done + [next])[|done|];
    } else {
      ColumnMetasLayout(bodyData, metaPos + width, types, i + 1, done + [next], k);
      assert MetaSpan(types, i, k) == width + MetaSpan(types, i + 1, k);
    }
  }

  /** The metadata of every column can be copied iff no column's metadata
      starts past the end of the body. */
  lemma {:induction false} ColumnMetasOk(bodyData: seq<byte>, metaPos: int, types: seq<byte>, i: nat,
                                         done: seq<Option<seq<byte>>>)
    requires i <= |types| && 0 <= metaPos
    ensures ColumnMetas(bodyData, metaPos, types, i, done).Ok? <==>
      forall k :: i <= k < |types| && MetaWidth(types[k]) > 0 ==> metaPos + MetaSpan(types, i, k) <= |bodyData|
    decreases |types| - i
  {
    if i < |types| {
      var width := MetaWidth(types[i]);
      ColumnMetasStep(bodyData, metaPos, types, i, done);
      assert MetaSpan(types, i, i) == 0;
      if width == 0 || metaPos <= |bodyData| {
        var next := if width == 0 then None else Some(CopyOfRange(bodyData, metaPos, metaPos + width).value);
        ColumnMetasOk(bodyData, metaPos + width, types, i + 1, done + [next]);
        forall k | i < k < |types| ensures MetaSpan(types, i, k) == width + MetaSpan(types, i + 1, k) {
        }
      }
    }
  }

  // ------------------------------------------------------------ columns

  /** The packed column count and the type codes after it. */
  datatype TypesPart = TypesPart(types: seq<byte>, next: int)

  /** The column count (packed) at p and one type code per column after
      it; the end of the codes is a Java int sum. */
  function TypesAt(bodyData: seq<byte>, p: int, order: ByteOrder): (r: Result<TypesPart>)
    ensures r.Ok? ==> GetPackedInteger(bodyData, p).Ok?
    ensures r.Ok? ==>
      var raw := GetPackedInteger(bodyData, p).value;
      var q := p + |raw|;
      && GetUnsignedInteger(raw, order) == Ok(|r.value.types|)
      && r.value.next == q + |r.value.types|
      && CopyOfRange(bodyData, q, r.value.next) == Ok(r.value.types)
  {
    match GetPackedInteger(bodyData, p)
    case Err(e) => Err(e)
    case Ok(rawColumnCount) =>
      var q := p + |rawColumnCount|;
      var columnCount := GetUnsignedInteger(rawColumnCount, order).value;
      var typesEnd := Int32(q + columnCount);
      match CopyOfRange(bodyData, q, typesEnd)
      case Err(e) => Err(e)
      case Ok(types) =>
        CountNoWrap(q, columnCount, typesEnd);
        Ok(TypesPart(types, typesEnd))
  }

  /** A Java int sum that does not drop below its first operand did not wrap. */
  lemma CountNoWrap(q: int, count: int, sum: int)
    requires 0 <= q && IsInt(count) && IsInt(sum) && sum == Int32(q + count) && q <= sum
    ensures sum == q + count
  {
  }

  /** The start of the per-column metadata (after the block's packed
      length) and the block's declared length. */
  datatype MetaBlock = MetaBlock(metaPos: int, metaLength: int)

  /** The packed length of the metadata block at p. */
  function MetaBlockAt(bodyData: seq<byte>, p: int, order: ByteOrder): (r: Result<MetaBlock>)
    ensures r.Ok? <==> GetPackedInteger(bodyData, p).Ok?
    ensures r.Ok? ==>
      var raw := GetPackedInteger(bodyData, p).value;
      && r.value.metaPos == p + |raw|
      && Ok(r.value.metaLength) == GetUnsignedLong(raw, order)
  {
    match GetPackedInteger(bodyData, p)
    case Err(e) => Err(e)
    case Ok(rawColumnMetaLength) =>
      Ok(MetaBlock(p + |rawColumnMetaLength|, GetUnsignedLong(rawColumnMetaLength, order).value))
  }

  /** The nullability bitmap's length for count columns, (count + 8) / 7
      in Java int arithmetic. */
  function NullableLength(count: int): (r: int)
    ensures 0 <= count < 0x7fff_fff8 ==> r == (count + 8) / 7
  {
    var n := Int32(count + 8);
    assert 0 <= count < 0x7fff_fff8 ==> n == count + 8 by {
      if 0 <= count < 0x7fff_fff8 {
        Int32Identity(count + 8);
      }
    }
    Quot(n, 7)
  }

  /** What the constructor reads from the column count to the nullability
      bitmap: the type codes, the per-column metadata, the nullability
      bitmap, and the position after it. */
  datatype ColumnsPart = ColumnsPart(
    types: seq<byte>,
    metas: seq<Option<seq<byte>>>,
    nullBits: seq<byte>,
    metaPos: int,
    metaLength: int,
    next: int)

  /** The type codes, the metadata block (packed length, then the
      per-column metadata), and the nullability bitmap, which starts the
      declared block length after the block's start, however many bytes
      the per-column metadata took. */
  function ColumnsOf(bodyData: seq<byte>, p: int, order: ByteOrder): (r: Result<ColumnsPart>)
    ensures r.Ok? ==> |r.value.metas| == |r.value.types| && 0 <= r.value.next
  {
    match TypesAt(bodyData, p, order)
    case Err(e) => Err(e)
    case Ok(t) => ColumnsAfterTypes(bodyData, order, t, MetaBlockAt(bodyData, t.next, order))
  }

  /** The rest of ColumnsOf once the type codes are read. */
  function ColumnsAfterTypes(bodyData: seq<byte>, order: ByteOrder, t: TypesPart, block: Result<MetaBlock>): (r: Result<ColumnsPart>)
    ensures r.Ok? ==> |r.value.metas| == |r.value.types| && 0 <= r.value.next
  {
    match block
    case Err(e) => Err(e)
    case Ok(b) => ColumnsAfterBlock(bodyData, t, b, ColumnMetas(bodyData, b.metaPos, t.types, 0, []))
  }

  /** Where the nullability bitmap starts: the declared block length past
      the block's start (Java int arithmetic). */
  function NullBitsStart(b: MetaBlock): int {
    Int32(b.metaPos + b.metaLength)
  }

  /** Where the nullability bitmap of count columns ends. */
  function NullBitsEnd(b: MetaBlock, count: int): int {
    Int32(NullBitsStart(b) + NullableLength(count))
  }

  /** The rest of ColumnsOf once the per-column metadata is read. */
  function ColumnsAfterBlock(bodyData: seq<byte>, t: TypesPart, b: MetaBlock,
                             metas: Result<seq<Option<seq<byte>>>>): (r: Result<ColumnsPart>)
    requires metas.Ok? ==> |metas.value| == |t.types|
    ensures r.Ok? ==> |r.value.metas| == |r.value.types| && 0 <= r.value.next
  {
    match metas
    case Err(e) => Err(e)
    case Ok(m) =>
      match CopyOfRange(bodyData, NullBitsStart(b), NullBitsEnd(b, |t.types|))
      case Err(e) => Err(e)
      case Ok(nullBits) => Ok(ColumnsPart(t.types, m, nullBits, b.metaPos, b.metaLength, NullBitsEnd(b, |t.types|)))
  }

  /** ColumnsOf decodes iff its four stages do: the type codes, the
      metadata block's length, the per-column metadata and the bitmap. The
      type codes follow the packed count, the metadata block follows the
      codes, and the bitmap is (count + 8) / 7 bytes copied from the end of
      the declared metadata block. */
  lemma ColumnsLayout(bodyData: seq<byte>, p: int, order: ByteOrder)
    ensures ColumnsOf(bodyData, p, order).Ok? <==>
      && TypesAt(bodyData, p, order).Ok?
      && MetaBlockAt(bodyData, TypesAt(bodyData, p, order).value.next, order).Ok?
      && var t := TypesAt(bodyData, p, order).value;
         var b := MetaBlockAt(bodyData, t.next, order).value;
         && ColumnMetas(bodyData, b.metaPos, t.types, 0, []).Ok?
         && CopyOfRange(bodyData, NullBitsStart(b), NullBitsEnd(b, |t.types|)).Ok?
    ensures ColumnsOf(bodyData, p, order).Ok? ==>
      var c := ColumnsOf(bodyData, p, order).value;
      var t := TypesAt(bodyData, p, order).value;
      var b := MetaBlockAt(bodyData, t.next, order).value;
      && c.types == t.types
      && c.metaPos == b.metaPos && c.metaLength == b.metaLength
      && Ok(c.metas) == ColumnMetas(bodyData, b.metaPos, t.types, 0, [])
      && Ok(c.nullBits) == CopyOfRange(bodyData, NullBitsStart(b), c.next)
      && (|c.types| < 0x7fff_fff8 ==> |c.nullBits| == (|c.types| + 8) / 7)
  {
    if ColumnsOf(bodyData, p, order).Ok? {
      var c := ColumnsOf(bodyData, p, order).value;
      var t := TypesAt(bodyData, p, order).value;
      var b := MetaBlockAt(bodyData, t.next, order).value;
      assert |c.nullBits| == NullBitsEnd(b, |t.types|) - NullBitsStart(b);
      if |c.types| < 0x7fff_fff8 {
        NullBitsLength(b, |c.types|, c.nullBits);
      }
    }
  }

  /** A bitmap that could be copied, for fewer than 2^31 - 8 columns, is
      (count + 8) / 7 bytes long. */
  lemma NullBitsLength(b: MetaBlock, count: nat, bits: seq<byte>)
    requires count < 0x7fff_fff8 && 0 <= NullBitsStart(b) <= NullBitsEnd(b, count)
    requires |bits| == NullBitsEnd(b, count) - NullBitsStart(b)
    ensures |bits| == (count + 8) / 7
  {
    var s := NullBitsStart(b);
    var n := NullableLength(count);
    assert 0 <= n < 0x2000_0000;
    CountNoWrap(s, n, NullBitsEnd(b, count));
  }

  /** The column defines the constructor builds: define i has id i, type
      code i, metadata i and bit i of the nullability bitmap, and no name. */
  function Defines(c: ColumnsPart): (r: map<int, ColumnDefine>)
    requires |c.metas| == |c.types|
    ensures forall i :: i in r <==> 0 <= i < |c.types|
    ensures forall i :: 0 <= i < |c.types| ==>
      r[i] == ColumnDefine(i, None, c.types[i], c.metas[i], BitSetGet(c.nullBits, i), None)
  {
    map i | 0 <= i < |c.types| :: ColumnDefine(i, None, c.types[i], c.metas[i], BitSetGet(c.nullBits, i), None)
  }

  // ------------------------------------------------------------ column names

  /** setColumnName(i, names[i]) for every i from i on. */
  function RenamedFrom(m: map<int, ColumnDefine>, names: seq<seq<byte>>, i: nat): map<int, ColumnDefine>
    requires i <= |names|
    decreases |names| - i
  {
    if i == |names| then m else RenamedFrom(Renamed(m, i, names[i]), names, i + 1)
  }

  /** When every named index already has a define, name i lands on column
      i, the other columns keep the names they had, and nothing else changes. */
  lemma {:induction false} RenamedFromInRange(m: map<int, ColumnDefine>, names: seq<seq<byte>>, i: nat)
    requires i <= |names|
    requires forall k :: i <= k < |names| ==> k in m
    ensures RenamedFrom(m, names, i).Keys == m.Keys
    ensures forall k :: k in m ==>
      RenamedFrom(m, names, i)[k] == if i <= k < |names| then m[k].(columnName := Some(names[k])) else m[k]
    decreases |names| - i
  {
    if i < |names| {
      var m' := Renamed(m, i, names[i]);
      RenamedFromInRange(m', names, i + 1);
    }
  }

  /** With more names than columns, the first name past the last column
      replaces column 0 by a fresh define, so column 0's type and metadata
      are lost. */
  lemma RenamedPastEnd(m: map<int, ColumnDefine>, names: seq<seq<byte>>)
    requires 0 in m && |names| == 2 && 1 !in m
    ensures RenamedFrom(m, names, 0) == m[0 := ColumnDefine(0, Some(names[1]), 0, None, false, None)]
  {
    var m1 := Renamed(m, 0, names[0]);
    assert RenamedFrom(m, names, 0) == RenamedFrom(m1, names, 1);
    assert RenamedFrom(m1, names, 1) == RenamedFrom(Renamed(m1, 1, names[1]), names, 2);
  }

  // ------------------------------------------------------------ the whole body

  /** The TableMapEventBody constructor on a body, given TABLE_MAP_EVENT's
      post-header length: the head, the columns, the optional metadata up
      to the checksum, and the column names it carries. */
  function TableMapOf(ctx: BodyContext, postHeaderLength: int): (r: Result<TableMap>)
    ensures r.Ok? ==> |r.value.part.metas| == |r.value.part.types|
  {
    match HeadOf(ctx.bodyData, ctx.order, postHeaderLength)
    case Err(e) => Err(e)
    case Ok(head) => TableMapAfterHead(ctx, head, ColumnsOf(ctx.bodyData, head.next, ctx.order))
  }

  /** The rest of TableMapOf once the head is read. */
  function TableMapAfterHead(ctx: BodyContext, head: TableMapHead, columns: Result<ColumnsPart>): (r: Result<TableMap>)
    requires columns.Ok? ==> |columns.value.metas| == |columns.value.types| && 0 <= columns.value.next
    ensures r.Ok? ==> |r.value.part.metas| == |r.value.part.types|
  {
    match columns
    case Err(e) => Err(e)
    case Ok(c) =>
      TableMapAfterColumns(ctx, head, c, OptionalMetaDataOf(ctx.bodyData, c.next, ctx.BodyDataLength(), ctx.order))
  }

  /** The rest of TableMapOf once the columns are read. */
  function TableMapAfterColumns(ctx: BodyContext, head: TableMapHead, c: ColumnsPart,
                                meta: Result<OptionalMetaData>): (r: Result<TableMap>)
    requires |c.metas| == |c.types|
    ensures r.Ok? ==> r.value.part == c
  {
    match meta
    case Err(e) => Err(e)
    case Ok(m) =>
      match PackedStrings(FieldOrEmpty(m.fields, ColumnName), 0, m.order, [])
      case Err(e) => Err(e)
      case Ok(names) =>
        Ok(TableMap(head, c, names, m))
  }

  /** A decoded table map is made of a decoded head, decoded columns after
      it, the optional metadata from just after the nullability bitmap to the
      end of the body less its checksum, and the column names in it. */
  lemma TableMapParts(ctx: BodyContext, postHeaderLength: int)
    requires TableMapOf(ctx, postHeaderLength).Ok?
    ensures var t := TableMapOf(ctx, postHeaderLength).value;
      && HeadOf(ctx.bodyData, ctx.order, postHeaderLength) == Ok(t.head)
      && ColumnsOf(ctx.bodyData, t.head.next, ctx.order) == Ok(t.part)
      && OptionalMetaDataOf(ctx.bodyData, t.part.next, ctx.BodyDataLength(), ctx.order) == Ok(t.optionalMetaData)
      && PackedStrings(FieldOrEmpty(t.optionalMetaData.fields, ColumnName), 0, t.optionalMetaData.order, [])
         == Ok(t.columnNames)
  {
    var head := HeadOf(ctx.bodyData, ctx.order, postHeaderLength);
    assert head.Ok?;
    var c := ColumnsOf(ctx.bodyData, head.value.next, ctx.order);
    assert TableMapOf(ctx, postHeaderLength) == TableMapAfterHead(ctx, head.value, c);
    assert c.Ok?;
    var meta := OptionalMetaDataOf(ctx.bodyData, c.value.next, ctx.BodyDataLength(), ctx.order);
    assert TableMapOf(ctx, postHeaderLength) == TableMapAfterColumns(ctx, head.value, c.value, meta);
  }

  /** The columns of a table map are 0..count-1 with their type codes and
      metadata, and column i is nullable iff bit i of the bitmap is set;
      when there are no more column names than columns, name i is column
      i's name and the other columns have none. */
  lemma TableMapColumns(t: TableMap)
    requires |t.part.metas| == |t.part.types| && |t.columnNames| <= |t.part.types|
    ensures forall i :: i in t.Columns() <==> 0 <= i < |t.part.types|
    ensures forall i :: 0 <= i < |t.part.types| ==>
      t.Columns()[i] == ColumnDefine(i, if i < |t.columnNames| then Some(t.columnNames[i]) else None,
                                     t.part.types[i], t.part.metas[i], BitSetGet(t.part.nullBits, i), None)
  {
    var m := Defines(t.part);
    RenamedFromInRange(m, t.columnNames, 0);
    forall i | 0 <= i < |t.part.types|
      ensures t.Columns()[i] == ColumnDefine(i, if i < |t.columnNames| then Some(t.columnNames[i]) else None,
                                             t.part.types[i], t.part.metas[i], BitSetGet(t.part.nullBits, i), None)
    {
      assert i in m;
    }
  }

  // ------------------------------------------------------------ the constructor

  /** The body b holds what TableMapOf reads from ctx: the table id, the
      trimmed names, the column defines and the optional metadata. */
  predicate TableMapHolds(ctx: BodyContext, postHeaderLength: int, b: TableMapEventBody)
    reads b.tableDefine
  {
    var t := TableMapOf(ctx, postHeaderLength);
    var d := b.tableDefine;
    && t.Ok?
    && d.tableId == t.value.TableId()
    && d.schemaName == Some(t.value.SchemaName()) && d.tableName == Some(t.value.TableName())
    && d.columns == t.value.Columns()
    && b.optionalMetaData == t.value.optionalMetaData
  }

  /** The TableMapEventBody constructor: a fresh TableDefine filled column
      by column as the body is read. */
  method DecodeTableMap(ctx: BodyContext, postHeaderLength: int) returns (r: Result<TableMapEventBody>)
    ensures r.Ok? <==> TableMapOf(ctx, postHeaderLength).Ok?
    ensures r.Ok? ==>
      var t := TableMapOf(ctx, postHeaderLength).value;
      var d := r.value.tableDefine;
      && fresh(d)
      && d.tableId == t.TableId()
      && d.schemaName == Some(t.SchemaName()) && d.tableName == Some(t.TableName())
      && d.columns == t.Columns()
      && r.value.optionalMetaData == t.optionalMetaData
    ensures r.Ok? ==> TableMapHolds(ctx, postHeaderLength, r.value)
  {
    var bodyData, order := ctx.bodyData, ctx.order;
    var head :- ReadHead(bodyData, order, postHeaderLength);
    var tableDefine := new TableDefine(head.tableId);
    tableDefine.SetSchemaName(TrimBytes(head.schemaName));
    tableDefine.SetTableName(TrimBytes(head.tableName));
    var c :- ReadColumns(tableDefine, bodyData, head.next, order);
    var meta :- ParseOptionalMetaData(bodyData, c.next, ctx.BodyDataLength(), order);
    var names :- GetColumnNames(meta);
    SetColumnNames(tableDefine, names);
    r := Ok(TableMapEventBody(tableDefine, meta));
  }

  /** The table id and the two names, with the cursor after them. */
  method ReadHead(bodyData: seq<byte>, order: ByteOrder, postHeaderLength: int) returns (r: Result<TableMapHead>)
    ensures r == HeadOf(bodyData, order, postHeaderLength)
  {
    var pos := 0;
    var tableId: int;
    if postHeaderLength == 6 {
      tableId := GetUnsignedLongAt(bodyData, pos, pos + 4, order).value;
      pos := pos + 4;
    } else {
      tableId := GetUnsignedLongAt(bodyData, pos, pos + 6, order).value;
      pos := pos + 6;
    }
    pos := pos + 2;
    var schema :- ReadName(bodyData, pos, order);
    pos := schema.next;
    var table :- ReadName(bodyData, pos, order);
    pos := table.next;
    r := Ok(TableMapHead(tableId, schema.raw, table.raw, pos));
  }

  /** A length byte, the name it announces, and the skipped NUL. */
  method ReadName(bodyData: seq<byte>, p: int, order: ByteOrder) returns (r: Result<Name>)
    ensures r == NameAt(bodyData, p)
  {
    var pos := p;
    var nameLength :- GetUnsignedIntegerAt(bodyData, pos, pos + 1, order);
    pos := pos + 1;
    var name :- CopyOfRange(bodyData, pos, pos + nameLength);
    pos := pos + nameLength;
    pos := pos + 1;
    r := Ok(Name(name, pos));
  }

  /** From the column count to the nullability bitmap: the type loop, the
      metadata loop and the nullability loop over the TableDefine. */
  method ReadColumns(tableDefine: TableDefine, bodyData: seq<byte>, p: int, order: ByteOrder)
    returns (r: Result<ColumnsPart>)
    requires tableDefine.columns == map[]
    modifies tableDefine
    ensures r == ColumnsOf(bodyData, p, order)
    ensures r.Ok? ==> tableDefine.columns == Defines(r.value)
    ensures tableDefine.schemaName == old(tableDefine.schemaName) && tableDefine.tableName == old(tableDefine.tableName)
  {
    var types :- TypesAt(bodyData, p, order);
    var rawColumnType := types.types;
    SetColumnTypes(tableDefine, rawColumnType);
    var block :- MetaBlockAt(bodyData, types.next, order);
    var pos := NullBitsStart(block);
    var metas :- SetColumnMetas(tableDefine, bodyData, block.metaPos, rawColumnType);
    RangeSize(tableDefine.columns.Keys, |rawColumnType|);
    var nullableBits :- CopyOfRange(bodyData, pos, NullBitsEnd(block, |rawColumnType|));
    pos := NullBitsEnd(block, |rawColumnType|);
    SetNullability(tableDefine, nullableBits);
    r := Ok(ColumnsPart(rawColumnType, metas, nullableBits, block.metaPos, block.metaLength, pos));
    ColumnsOfParts(bodyData, p, order, types, block, metas, nullableBits);
    DefinesOfColumns(tableDefine.columns, r.value);
  }

  /** ColumnsOf from its four stages. */
  lemma ColumnsOfParts(bodyData: seq<byte>, p: int, order: ByteOrder, t: TypesPart, b: MetaBlock,
                       metas: seq<Option<seq<byte>>>, nullBits: seq<byte>)
    requires TypesAt(bodyData, p, order) == Ok(t)
    requires MetaBlockAt(bodyData, t.next, order) == Ok(b)
    requires ColumnMetas(bodyData, b.metaPos, t.types, 0, []) == Ok(metas)
    requires CopyOfRange(bodyData, NullBitsStart(b), NullBitsEnd(b, |t.types|)) == Ok(nullBits)
    ensures ColumnsOf(bodyData, p, order)
      == Ok(ColumnsPart(t.types, metas, nullBits, b.metaPos, b.metaLength, NullBitsEnd(b, |t.types|)))
  {
  }

  /** The columns the three loops leave are the defines of the part read. */
  lemma DefinesOfColumns(m: map<int, ColumnDefine>, c: ColumnsPart)
    requires |c.metas| == |c.types|
    requires m == WithNullability(TypedDefines(c.types, c.metas), c.nullBits, |c.types|)
    ensures m == Defines(c)
  {
  }

  /** The defines after the type loop over types and the first |metas|
      passes of the metadata loop. */
  function TypedDefines(types: seq<byte>, metas: seq<Option<seq<byte>>>): (r: map<int, ColumnDefine>)
    requires |metas| <= |types|
    ensures forall k :: k in r <==> 0 <= k < |types|
    ensures forall k :: 0 <= k < |types| ==>
      r[k] == NewColumnDefine.(columnId := k, columnType := types[k], columnMeta := if k < |metas| then metas[k] else None)
  {
    map k | 0 <= k < |types| ::
      NewColumnDefine.(columnId := k, columnType := types[k], columnMeta := if k < |metas| then metas[k] else None)
  }

  /** One pass of the type loop adds define i. */
  lemma TypedDefinesGrow(types: seq<byte>, i: nat)
    requires i < |types|
    ensures TypedDefines(types[..i + 1], [])
      == TypedDefines(types[..i], [])[i := NewColumnDefine.(columnId := i, columnType := types[i])]
  {
    var m := TypedDefines(types[..i], [])[i := NewColumnDefine.(columnId := i, columnType := types[i])];
    assert forall k :: k in m <==> 0 <= k < i + 1;
    forall k | 0 <= k < i + 1 ensures TypedDefines(types[..i + 1], [])[k] == m[k] {
      assert types[..i + 1][k] == types[k];
    }
  }

  /** One pass of the metadata loop sets the metadata of define |metas|,
      or leaves it None. */
  lemma TypedDefinesMeta(types: seq<byte>, metas: seq<Option<seq<byte>>>, meta: Option<seq<byte>>)
    requires |metas| < |types|
    ensures var i := |metas|;
      TypedDefines(types, metas + [meta]) == TypedDefines(types, metas)[i := TypedDefines(types, metas)[i].(columnMeta := meta)]
    ensures meta.None? ==> TypedDefines(types, metas + [meta]) == TypedDefines(types, metas)
  {
    var i := |metas|;
    var m := TypedDefines(types, metas)[i := TypedDefines(types, metas)[i].(columnMeta := meta)];
    forall k | 0 <= k < |types| ensures TypedDefines(types, metas + [meta])[k] == m[k] {
      if k < i {
        assert (metas + [meta])[k] == metas[k];
      }
    }
    if meta.None? {
      forall k | 0 <= k < |types| ensures TypedDefines(types, metas + [meta])[k] == TypedDefines(types, metas)[k] {
        if k < i {
          assert (metas + [meta])[k] == metas[k];
        }
      }
    }
  }

  /** The type loop: define i gets id i and type code i. */
  method SetColumnTypes(tableDefine: TableDefine, rawColumnType: seq<byte>)
    requires tableDefine.columns == map[]
    modifies tableDefine
    ensures tableDefine.columns == TypedDefines(rawColumnType, [])
    ensures tableDefine.schemaName == old(tableDefine.schemaName) && tableDefine.tableName == old(tableDefine.tableName)
  {
    assert TypedDefines(rawColumnType[..0], []) == map[];
    for i := 0 to |rawColumnType|
      invariant tableDefine.columns == TypedDefines(rawColumnType[..i], [])
      invariant tableDefine.schemaName == old(tableDefine.schemaName) && tableDefine.tableName == old(tableDefine.tableName)
    {
      TypedDefinesGrow(rawColumnType, i);
      SetColumnType(tableDefine, i, rawColumnType[i]);
    }
    assert rawColumnType[..|rawColumnType|] == rawColumnType;
  }

  /** One pass of the type loop: the define under i, created with id i when
      there is none, gets type code t. */
  method SetColumnType(tableDefine: TableDefine, i: int, t: byte)
    requires i !in tableDefine.columns
    modifies tableDefine
    ensures tableDefine.columns == old(tableDefine.columns)[i := NewColumnDefine.(columnId := i, columnType := t)]
    ensures tableDefine.schemaName == old(tableDefine.schemaName) && tableDefine.tableName == old(tableDefine.tableName)
  {
    var columnDef := tableDefine.GetColumnDefine(i);
    if columnDef.None? {
      tableDefine.SetColumnDefine(NewColumnDefine.(columnId := i));
    }
    var def := tableDefine.GetColumnDefine(i).value;
    tableDefine.UpdateColumnDefine(i, def.(columnType := t));
    assert tableDefine.columns == old(tableDefine.columns)[i := NewColumnDefine.(columnId := i)][i := def.(columnType := t)];
  }

  /** The metadata loop: its own cursor from the block's start, one copy per
      column whose type carries metadata. */
  method SetColumnMetas(tableDefine: TableDefine, bodyData: seq<byte>, metaPos: int, types: seq<byte>)
    returns (r: Result<seq<Option<seq<byte>>>>)
    requires tableDefine.columns == TypedDefines(types, [])
    modifies tableDefine
    ensures r == ColumnMetas(bodyData, metaPos, types, 0, [])
    ensures r.Ok? ==> tableDefine.columns == TypedDefines(types, r.value)
    ensures tableDefine.schemaName == old(tableDefine.schemaName) && tableDefine.tableName == old(tableDefine.tableName)
  {
    var columnMetaPos := metaPos;
    var metas: seq<Option<seq<byte>>> := [];
    for i := 0 to |types|
      invariant |metas| == i
      invariant ColumnMetas(bodyData, metaPos, types, 0, []) == ColumnMetas(bodyData, columnMetaPos, types, i, metas)
      invariant tableDefine.columns == TypedDefines(types, metas)
      invariant tableDefine.schemaName == old(tableDefine.schemaName) && tableDefine.tableName == old(tableDefine.tableName)
    {
      ColumnMetasStep(bodyData, columnMetaPos, types, i, metas);
      var columnDef := tableDefine.GetColumnDefine(i).value;
      var width := MetaWidth(columnDef.columnType);
      if width > 0 {
        var columnMeta :- CopyOfRange(bodyData, columnMetaPos, columnMetaPos + width);
        columnMetaPos := columnMetaPos + width;
        TypedDefinesMeta(types, metas, Some(columnMeta));
        tableDefine.UpdateColumnDefine(i, columnDef.(columnMeta := Some(columnMeta)));
        metas := metas + [Some(columnMeta)];
      } else {
        TypedDefinesMeta(types, metas, None);
        metas := metas + [None];
      }
    }
    r := Ok(metas);
  }

  /** The defines m after the nullability loop's passes for the ids below
      i: define k is nullable iff bit k of bits is set. */
  function WithNullability(m: map<int, ColumnDefine>, bits: seq<byte>, i: int): (r: map<int, ColumnDefine>)
    ensures r.Keys == m.Keys
  {
    map k | k in m :: if 0 <= k < i then m[k].(isNullable := BitSetGet(bits, k)) else m[k]
  }

  /** One pass of the nullability loop sets the flag of define i. */
  lemma WithNullabilityStep(m: map<int, ColumnDefine>, bits: seq<byte>, i: nat)
    requires i in m
    ensures WithNullability(m, bits, i + 1)
      == WithNullability(m, bits, i)[i := m[i].(isNullable := BitSetGet(bits, i))]
  {
  }

  /** The nullability loop over columns 0..getColumnCount()-1: column i is
      nullable iff bit i is set. */
  method SetNullability(tableDefine: TableDefine, bits: seq<byte>)
    requires forall k :: k in tableDefine.columns <==> 0 <= k < tableDefine.ColumnCount()
    modifies tableDefine
    ensures tableDefine.columns == WithNullability(old(tableDefine.columns), bits, old(tableDefine.ColumnCount()))
    ensures tableDefine.schemaName == old(tableDefine.schemaName) && tableDefine.tableName == old(tableDefine.tableName)
  {
    var n := tableDefine.ColumnCount();
    var i := 0;
    ghost var m := tableDefine.columns;
    assert WithNullability(m, bits, 0) == m;
    while i < tableDefine.ColumnCount()
      invariant 0 <= i <= n
      invariant tableDefine.columns == WithNullability(m, bits, i)
      invariant tableDefine.ColumnCount() == n
      invariant tableDefine.schemaName == old(tableDefine.schemaName) && tableDefine.tableName == old(tableDefine.tableName)
      decreases n - i
    {
      WithNullabilityStep(m, bits, i);
      var columnDef := tableDefine.GetColumnDefine(i).value;
      tableDefine.UpdateColumnDefine(i, columnDef.(isNullable := BitSetGet(bits, i)));
      i := i + 1;
    }
  }

  /** A set holding exactly 0..n-1 has n elements. */
  lemma {:induction false} RangeSize(s: set<int>, n: nat)
    requires forall k :: k in s <==> 0 <= k < n
    ensures |s| == n
  {
    if n == 0 {
      assert s == {} by {
        forall k | k in s ensures false {
        }
      }
    } else {
      var s' := s - {n - 1};
      RangeSize(s', n - 1);
      assert n - 1 in s;
      assert |s| == |s'| + 1;
    }
  }

  /** The column-name loop: setColumnName(i, names[i]) for every name. */
  method SetColumnNames(tableDefine: TableDefine, names: seq<seq<byte>>)
    modifies tableDefine
    ensures tableDefine.columns == RenamedFrom(old(tableDefine.columns), names, 0)
    ensures tableDefine.schemaName == old(tableDefine.schemaName) && tableDefine.tableName == old(tableDefine.tableName)
  {
    for i := 0 to |names|
      invariant RenamedFrom(old(tableDefine.columns), names, 0) == RenamedFrom(tableDefine.columns, names, i)
      invariant tableDefine.schemaName == old(tableDefine.schemaName) && tableDefine.tableName == old(tableDefine.tableName)
    {
      tableDefine.SetColumnName(i, names[i]);
    }
  }
}
