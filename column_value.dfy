/** The value of one column of a row image, as RowsEventBody reads it at a
    cursor in the event body: the type code decides how many bytes the value
    takes and how they are decoded. */
module ColumnValues {
  import opened Wrappers
  import opened Java
  import opened ParserHelper
  import opened EventBodies
  import opened ColumnDefines
  import opened RowImages
  import opened Decimals

  /** A column read at a cursor: the value stored (None for Java's null) and
      the position where the next column starts. */
  datatype Cell = Cell(value: Option<ColumnValue>, next: int)

  /** `getUnsignedInteger(colDef.getColumnMeta())`: the type metadata as a
      number in the file's byte order; a column without metadata (DECIMAL
      has none in a table map) dereferences null. */
  function MetaValue(colDef: ColumnDefine, order: ByteOrder): (r: Result<int>)
    ensures colDef.columnMeta.None? ==> r == Err(NullPointer)
    ensures r.Ok? <==> colDef.columnMeta.Some? && 1 <= |colDef.columnMeta.value| <= 8
    ensures r.Ok? ==> IsInt(r.value)
    ensures colDef.columnMeta.Some? && 1 <= |colDef.columnMeta.value| <= 3 ==>
      r == UnsignedNumber(colDef.columnMeta.value, order)
  {
    match colDef.columnMeta
    case None => Err(NullPointer)
    case Some(meta) =>
      assert 1 <= |meta| <= 3 ==> GetUnsignedInteger(meta, order) == UnsignedNumber(meta, order) by {
        if 1 <= |meta| <= 3 {
          NarrowUnsigned(meta, order);
        }
      }
      GetUnsignedInteger(meta, order)
  }

  /** The charset text columns are decoded with: none unless strings are
      decoded, then the column's own charset or else the file's default. */
  function CharsetOf(colDef: ColumnDefine, decodeString: bool, defaultCharsetName: string): (r: Option<string>)
    ensures r.None? <==> !decodeString
    ensures decodeString && colDef.charsetName.Some? ==> r == colDef.charsetName
  {
    if !decodeString then None
    else if colDef.charsetName.Some? then colDef.charsetName
    else Some(defaultCharsetName)
  }

  /** Text bytes are a String in the charset when there is one, else the bytes. */
  function TextOrBytes(raw: seq<byte>, charset: Option<string>): (v: ColumnValue)
    ensures charset.Some? ==> v == TextValue(raw, charset.value)
    ensures charset.None? ==> v == BytesValue(raw)
  {
    if charset.Some? then TextValue(raw, charset.value) else BytesValue(raw)
  }

  // ------------------------------------------------------------ fixed widths

  /** The bytes the fixed-width types take. INT24 and TIME take 4 bytes, one
      more than MySQL stores for them. */
  function FixedWidth(t: byte): (w: Option<nat>)
  {
    match t
    case 0x01 => Some(1)   // TINY
    case 0x02 => Some(2)   // SHORT
    case 0x03 => Some(4)   // LONG
    case 0x04 => Some(4)   // FLOAT
    case 0x05 => Some(8)   // DOUBLE
    case 0x06 => Some(8)   // NULL
    case 0x08 => Some(8)   // LONGLONG
    case 0x09 => Some(4)   // INT24
    case 0x0d => Some(1)   // YEAR
    case 0x0a => Some(3)   // DATE
    case 0x0e => Some(3)   // NEWDATE
    case 0x0b => Some(4)   // TIME
    case 0x0c => Some(8)   // DATETIME
    case 0x07 => Some(4)   // TIMESTAMP
    case _ => None
  }

  /** An integer column: `getInteger(bodyData, pos, pos + width)`. */
  function IntCell(bodyData: seq<byte>, pos: int, width: nat, order: ByteOrder): (r: Result<Cell>)
    requires 1 <= width <= 4
    ensures r.Ok? <==> 0 <= pos <= |bodyData|
    ensures r.Ok? ==> r.value.next == pos + width && r.value.value.Some? && r.value.value.value.IntValue?
  {
    match GetIntegerAt(bodyData, pos, pos + width, order)
    case Err(e) => Err(e)
    case Ok(v) => Ok(Cell(Some(IntValue(v)), pos + width))
  }

  /** A LONGLONG (or NULL type) column: `getLong(bodyData, pos, pos + 8)`. */
  function LongCell(bodyData: seq<byte>, pos: int, order: ByteOrder): (r: Result<Cell>)
    ensures r.Ok? <==> 0 <= pos <= |bodyData|
    ensures r.Ok? ==> r.value.next == pos + 8 && r.value.value.Some? && r.value.value.value.IntValue?
  {
    match GetLongAt(bodyData, pos, pos + 8, order)
    case Err(e) => Err(e)
    case Ok(v) => Ok(Cell(Some(IntValue(v)), pos + 8))
  }

  /** A FLOAT or DOUBLE column: the 4 or 8 bytes, kept undecoded. */
  function FloatingCell(bodyData: seq<byte>, pos: int, width: nat): (r: Result<Cell>)
    requires width == 4 || width == 8
    ensures r.Ok? <==> 0 <= pos <= |bodyData|
    ensures r.Ok? ==> r.value.next == pos + width && r.value.value.Some?
    ensures r.Ok? ==> if width == 4 then r.value.value.value.FloatValue? else r.value.value.value.DoubleValue?
  {
    match CopyOfRange(bodyData, pos, pos + width)
    case Err(e) => Err(e)
    case Ok(raw) => Ok(Cell(Some(if width == 4 then FloatValue(raw) else DoubleValue(raw)), pos + width))
  }

  /** A YEAR column: one byte read as a signed little-endian int, so a
      stored year offset of 128 or more comes out negative. */
  function YearCell(bodyData: seq<byte>, pos: int): (r: Result<Cell>)
    ensures r.Ok? <==> 0 <= pos <= |bodyData|
    ensures r.Ok? ==> r.value.next == pos + 1 && r.value.value.Some? && r.value.value.value.IntValue?
  {
    match GetIntegerAt(bodyData, pos, pos + 1, LittleEndian)
    case Err(e) => Err(e)
    case Ok(v) => Ok(Cell(Some(IntValue(v)), pos + 1))
  }

  /** A DATE or NEWDATE column: 3 bytes unpacked by getDateV1. */
  function DateCell(bodyData: seq<byte>, pos: int): (r: Result<Cell>)
    ensures r.Ok? <==> 0 <= pos <= |bodyData|
    ensures r.Ok? ==> r.value.next == pos + 3
    ensures r.Ok? ==> r.value.value.Some? && r.value.value.value.DateValue?
  {
    match CopyOfRange(bodyData, pos, pos + 3)
    case Err(e) => Err(e)
    case Ok(raw) =>
      match DateV1(raw)
      case Err(e) => Err(e)
      case Ok(d) => Ok(Cell(Some(DateValue(d)), pos + 3))
  }

  /** "h:m:s" of the three numbers, without padding. */
  function TimeText(t: TimeParts): string {
    LongToString(t.hours) + ":" + LongToString(t.minutes) + ":" + LongToString(t.seconds)
  }

  /** A TIME column: 4 bytes unpacked by getTimeV1, as "h:m:s". */
  function TimeCell(bodyData: seq<byte>, pos: int): (r: Result<Cell>)
    ensures r.Ok? <==> 0 <= pos <= |bodyData|
    ensures r.Ok? ==> r.value.next == pos + 4
    ensures r.Ok? ==> r.value.value.Some? && r.value.value.value.StringValue?
  {
    match CopyOfRange(bodyData, pos, pos + 4)
    case Err(e) => Err(e)
    case Ok(raw) =>
      match TimeV1(raw)
      case Err(e) => Err(e)
      case Ok(t) => Ok(Cell(Some(StringValue(TimeText(t))), pos + 4))
  }

  /** "y-m-d h:m:s" of the six numbers, without padding. */
  function DateTimeText(d: DateTimeParts): string {
    LongToString(d.year) + "-" + LongToString(d.month) + "-" + LongToString(d.day) + " "
    + LongToString(d.hour) + ":" + LongToString(d.minute) + ":" + LongToString(d.second)
  }

  /** A DATETIME column: a 4-byte date and a 4-byte time unpacked by
      getDateTimeV1. The time copy starts 4 bytes on, so it needs those 4
      bytes inside the body even where the date copy may run past it. */
  function DateTimeCell(bodyData: seq<byte>, pos: int): (r: Result<Cell>)
    ensures r.Ok? <==> 0 <= pos && pos + 4 <= |bodyData|
    ensures r.Ok? ==> r.value.next == pos + 8
    ensures r.Ok? ==> r.value.value.Some? && r.value.value.value.StringValue?
  {
    match CopyOfRange(bodyData, pos, pos + 4)
    case Err(e) => Err(e)
    case Ok(rawDate) =>
      match CopyOfRange(bodyData, pos + 4, pos + 8)
      case Err(e) => Err(e)
      case Ok(rawTime) =>
        match DateTimeV1(rawDate, rawTime)
        case Err(e) => Err(e)
        case Ok(d) => Ok(Cell(Some(StringValue(DateTimeText(d))), pos + 8))
  }

  /** A TIMESTAMP column: 4 little-endian bytes of seconds, stored as the
      Date at that many seconds times 1000 milliseconds. */
  function TimestampCell(bodyData: seq<byte>, pos: int): (r: Result<Cell>)
    ensures r.Ok? <==> 0 <= pos <= |bodyData|
    ensures r.Ok? ==> r.value.next == pos + 4
    ensures r.Ok? ==> r.value.value.Some? && r.value.value.value.InstantValue?
  {
    match CopyOfRange(bodyData, pos, pos + 4)
    case Err(e) => Err(e)
    case Ok(raw) =>
      match TimestampV1(raw)
      case Err(e) => Err(e)
      case Ok(seconds) => Ok(Cell(Some(InstantValue(seconds * 1000)), pos + 4))
  }

  // ------------------------------------------------------------ fractional seconds

  /** The fraction after a TIMESTAMP2, DATETIME2 or TIME2 value: its length
      is getTimeFractionalLength of the column's metadata (the precision);
      with a positive length that many bytes are read big-endian, unsigned
      for TIMESTAMP2 and signed for the others. The metadata is read after
      the value's own bytes. */
  function FractionAt(bodyData: seq<byte>, pos: int, colDef: ColumnDefine, order: ByteOrder, unsigned: bool)
    : (r: Result<(Option<int>, int)>)
    ensures r.Ok? ==> colDef.columnMeta.Some? && r.value.1 >= pos
  {
    match MetaValue(colDef, order)
    case Err(e) => Err(e)
    case Ok(fsp) =>
      var n := TimeFractionalLength(fsp);
      if n <= 0 then Ok((None, pos))
      else
        match CopyOfRange(bodyData, pos, pos + n)
        case Err(e) => Err(e)
        case Ok(raw) =>
          match (if unsigned then GetUnsignedInteger(raw, BigEndian) else GetInteger(raw, BigEndian))
          case Err(e) => Err(e)
          case Ok(f) => Ok((Some(f), pos + n))
  }

  /** The text the fraction adds: its digits when present. */
  function FractionText(fraction: Option<int>): string {
    if fraction.Some? then LongToString(fraction.value) else ""
  }

  /** A TIMESTAMP2 column: 4 big-endian bytes of seconds, then the fraction. */
  function Timestamp2Cell(bodyData: seq<byte>, pos: int, colDef: ColumnDefine, order: ByteOrder): (r: Result<Cell>)
    ensures r.Ok? ==> 0 <= pos <= |bodyData| && r.value.next >= pos + 4
    ensures r.Ok? ==> r.value.value.Some? && r.value.value.value.Timestamp2Value?
  {
    match CopyOfRange(bodyData, pos, pos + 4)
    case Err(e) => Err(e)
    case Ok(raw) =>
      match TimestampV2(raw)
      case Err(e) => Err(e)
      case Ok(seconds) =>
        match FractionAt(bodyData, pos + 4, colDef, order, true)
        case Err(e) => Err(e)
        case Ok((fraction, next)) => Ok(Cell(Some(Timestamp2Value(seconds, fraction)), next))
  }

  /** "y-MM-dd HH:mm:ss" of a DATETIME2, every field but the year padded to 2 digits. */
  function DateTime2Text(d: DateTimeParts): string {
    LongToString(d.year) + "-" + FixedLengthString(d.month, 2) + "-" + FixedLengthString(d.day, 2) + " "
    + FixedLengthString(d.hour, 2) + ":" + FixedLengthString(d.minute, 2) + ":" + FixedLengthString(d.second, 2)
  }

  /** A DATETIME2 column: 5 bytes unpacked by getDateTimeV2, then the
      fraction's digits appended with no separator. */
  function DateTime2Cell(bodyData: seq<byte>, pos: int, colDef: ColumnDefine, order: ByteOrder): (r: Result<Cell>)
    ensures r.Ok? ==> 0 <= pos <= |bodyData| && r.value.next >= pos + 5
    ensures r.Ok? ==> r.value.value.Some? && r.value.value.value.StringValue?
  {
    match CopyOfRange(bodyData, pos, pos + 5)
    case Err(e) => Err(e)
    case Ok(raw) =>
      match DateTimeV2(raw)
      case Err(e) => Err(e)
      case Ok(d) =>
        match FractionAt(bodyData, pos + 5, colDef, order, false)
        case Err(e) => Err(e)
        case Ok((fraction, next)) => Ok(Cell(Some(StringValue(DateTime2Text(d) + FractionText(fraction))), next))
  }

  /** "h:m:s" of a TIME2, the hour multiplied by the sign. */
  function Time2Text(t: SignedTimeParts): string {
    LongToString(t.sign * t.hour) + ":" + LongToString(t.minute) + ":" + LongToString(t.second)
  }

  /** A TIME2 column: 3 bytes unpacked by getTimeV2, then the fraction's
      digits appended with no separator. */
  function Time2Cell(bodyData: seq<byte>, pos: int, colDef: ColumnDefine, order: ByteOrder): (r: Result<Cell>)
    ensures r.Ok? ==> 0 <= pos <= |bodyData| && r.value.next >= pos + 3
    ensures r.Ok? ==> r.value.value.Some? && r.value.value.value.StringValue?
  {
    match CopyOfRange(bodyData, pos, pos + 3)
    case Err(e) => Err(e)
    case Ok(raw) =>
      match TimeV2(raw)
      case Err(e) => Err(e)
      case Ok(t) =>
        match FractionAt(bodyData, pos + 3, colDef, order, false)
        case Err(e) => Err(e)
        case Ok((fraction, next)) => Ok(Cell(Some(StringValue(Time2Text(t) + FractionText(fraction))), next))
  }

  // ------------------------------------------------------------ variable widths

  /** A STRING column: a packed string, advancing by what it consumed. */
  function StringCell(bodyData: seq<byte>, pos: int, charset: Option<string>, order: ByteOrder): (r: Result<Cell>)
    ensures r.Ok? <==> GetPackedString(bodyData, pos, order).Ok?
    ensures r.Ok? ==> r.value.value.Some? && pos < r.value.next <= 0x7FFF_FFFF
  {
    match GetPackedString(bodyData, pos, order)
    case Err(e) => Err(e)
    case Ok(s) => Ok(Cell(Some(TextOrBytes(s.data, charset)), pos + s.consumed))
  }

  /** The bytes of a length-prefixed value: `length` bytes from pos, up to
      the int sum `pos += length`; a length that carries it past
      Integer.MAX_VALUE wraps below pos and the copy throws. */
  function BytesAfterLength(bodyData: seq<byte>, pos: int, length: Result<int>, charset: Option<string>)
    : (r: Result<Cell>)
    requires length.Ok? ==> IsInt(length.value)
    ensures r.Ok? <==> length.Ok? && 0 <= pos <= |bodyData| && 0 <= length.value && pos + length.value <= 0x7FFF_FFFF
    ensures r.Ok? ==> r.value.next == pos + length.value && r.value.value.Some?
    ensures length.Ok? && 0 <= pos && 0 <= length.value && pos + length.value > 0x7FFF_FFFF ==> r == Err(IllegalArgument)
  {
    match length
    case Err(e) => Err(e)
    case Ok(n) =>
      var end := Int32(pos + n);
      IntAdvance(pos, n);
      match CopyOfRange(bodyData, pos, end)
      case Err(e) => Err(e)
      case Ok(raw) => Ok(Cell(Some(TextOrBytes(raw, charset)), end))
  }

  /** The width of a VARCHAR's length prefix: 1 byte when the declared
      maximum (the metadata) is below 256, else 2. */
  function VarcharPrefix(meta: int): (n: int)
    ensures n == 1 || n == 2
  {
    if meta < 256 then 1 else 2
  }

  /** A VARCHAR or VAR_STRING column: the metadata first, then the length
      prefix, then that many bytes. */
  function VarcharCell(bodyData: seq<byte>, pos: int, colDef: ColumnDefine, charset: Option<string>, order: ByteOrder)
    : (r: Result<Cell>)
    ensures r.Ok? ==> colDef.columnMeta.Some? && r.value.next >= pos + 1 && r.value.value.Some?
    ensures r.Ok? ==> r.value.next <= 0x7FFF_FFFF
  {
    match MetaValue(colDef, order)
    case Err(e) => Err(e)
    case Ok(meta) =>
      var n := VarcharPrefix(meta);
      BytesAfterLength(bodyData, pos + n, GetUnsignedIntegerAt(bodyData, pos, pos + n, order), charset)
  }

  /** A BLOB column: the metadata is the width of the length prefix, read
      as an unsigned number in the file's byte order. */
  function BlobCell(bodyData: seq<byte>, pos: int, colDef: ColumnDefine, charset: Option<string>, order: ByteOrder)
    : (r: Result<Cell>)
    ensures r.Ok? ==> colDef.columnMeta.Some? && r.value.next >= pos && r.value.value.Some?
    ensures r.Ok? ==> r.value.next <= 0x7FFF_FFFF
  {
    match MetaValue(colDef, order)
    case Err(e) => Err(e)
    case Ok(n) => BlobCellAt(bodyData, pos, n, charset, order)
  }

  /** The BLOB branch once the prefix width n is known. */
  function BlobCellAt(bodyData: seq<byte>, pos: int, n: int, charset: Option<string>, order: ByteOrder): (r: Result<Cell>)
    ensures r.Ok? ==> r.value.next >= pos && r.value.value.Some?
    ensures r.Ok? ==> r.value.next <= 0x7FFF_FFFF
  {
    match CopyOfRange(bodyData, pos, pos + n)
    case Err(e) => Err(e)
    case Ok(rawLength) => BytesAfterLength(bodyData, pos + n, GetUnsignedInteger(rawLength, order), charset)
  }

  /** A GEOMETRY column: like a BLOB, the prefix read by getUnsignedInteger
      at the cursor; the value is always kept as bytes. */
  function GeometryCell(bodyData: seq<byte>, pos: int, colDef: ColumnDefine, order: ByteOrder): (r: Result<Cell>)
    ensures r.Ok? ==> colDef.columnMeta.Some? && r.value.next >= pos && r.value.value.Some?
    ensures r.Ok? ==> r.value.value.value.BytesValue? && r.value.next <= 0x7FFF_FFFF
  {
    match MetaValue(colDef, order)
    case Err(e) => Err(e)
    case Ok(n) => BytesAfterLength(bodyData, pos + n, GetUnsignedIntegerAt(bodyData, pos, pos + n, order), None)
  }

  /** The bits of a BIT column: the metadata's high byte counts whole bytes
      and its low byte the extra bits (Java's `>>` and `& 0xFF`). */
  function BitCount(meta: int): int {
    (meta / 256) * 8 + meta % 256
  }

  /** A BIT column: (nbits + 7) / 8 bytes, kept as bytes. */
  function BitCell(bodyData: seq<byte>, pos: int, colDef: ColumnDefine, order: ByteOrder): (r: Result<Cell>)
    ensures r.Ok? ==> colDef.columnMeta.Some? && r.value.next >= pos && r.value.value.Some?
    ensures r.Ok? ==> r.value.value.value.BytesValue?
  {
    match MetaValue(colDef, order)
    case Err(e) => Err(e)
    case Ok(meta) =>
      var n := Quot(BitCount(meta) + 7, 8);
      match CopyOfRange(bodyData, pos, pos + n)
      case Err(e) => Err(e)
      case Ok(raw) => Ok(Cell(Some(BytesValue(raw)), pos + n))
  }

  /** The precision and scale of a DECIMAL: the low and the high byte of its
      metadata. */
  function Precision(meta: int): int { meta % 256 }
  function Scale(meta: int): int { meta / 256 }

  /** A DECIMAL or NEWDECIMAL column: the width its layout gives, decoded by
      DecimalOf. */
  function DecimalCell(bodyData: seq<byte>, pos: int, colDef: ColumnDefine, order: ByteOrder): (r: Result<Cell>)
    ensures r.Ok? ==> colDef.columnMeta.Some? && r.value.next >= pos && r.value.value.Some?
    ensures r.Ok? ==> r.value.value.value.DecimalValue?
  {
    match MetaValue(colDef, order)
    case Err(e) => Err(e)
    case Ok(m) => DecimalCellAt(bodyData, pos, m, LayoutOf(Precision(m), Scale(m)).Width())
  }

  /** The DECIMAL branch once the metadata m and the width w its layout
      gives are known. */
  function DecimalCellAt(bodyData: seq<byte>, pos: int, m: int, w: int): (r: Result<Cell>)
    ensures r.Ok? ==> 0 <= w && r.value.next == pos + w
    ensures r.Ok? ==> r.value.value.Some? && r.value.value.value.DecimalValue?
  {
    match CopyOfRange(bodyData, pos, pos + w)
    case Err(e) => Err(e)
    case Ok(raw) => DecimalCellOf(raw, m, pos + w)
  }

  /** The DECIMAL branch once its bytes are copied; the next column starts at next. */
  function DecimalCellOf(raw: seq<byte>, m: int, next: int): (r: Result<Cell>)
    ensures r.Ok? ==> r.value.next == next && r.value.value.Some? && r.value.value.value.DecimalValue?
  {
    match DecimalOf(raw, Precision(m), Scale(m))
    case Err(e) => Err(e)
    case Ok(d) => Ok(Cell(Some(DecimalValue(d.0, d.1)), next))
  }

  // ------------------------------------------------------------ the switch

  /** The type codes of each branch family of the switch. */
  predicate IsIntegerType(t: byte) { t == 0x01 || t == 0x02 || t == 0x03 || t == 0x09 }
  predicate IsNumericType(t: byte) { IsIntegerType(t) || t == 0x04 || t == 0x05 || t == 0x06 || t == 0x08 }
  predicate IsDateType(t: byte) { t == 0x0d || t == 0x0a || t == 0x0e }
  predicate IsClockType(t: byte) { t == 0x0b || t == 0x0c || t == 0x07 }
  predicate IsTemporalType(t: byte) { IsDateType(t) || IsClockType(t) }
  predicate IsTemporal2Type(t: byte) { t == 0x11 || t == 0x12 || t == 0x13 }
  predicate IsTextType(t: byte) { t == 0xfe || t == 0x0f || t == 0xfd || t == 0xfc }
  predicate IsOtherType(t: byte) { t == 0x00 || t == 0xf6 || t == 0x10 || t == 0xff }

  /** The types the switch of getRowImage reads. */
  predicate IsReadType(t: byte) {
    IsNumericType(t) || IsTemporalType(t) || IsTemporal2Type(t) || IsTextType(t) || IsOtherType(t)
  }

  /** The fixed-width types are the numeric and the older temporal ones. */
  lemma FixedWidthTypes(t: byte)
    ensures FixedWidth(t).Some? <==> IsNumericType(t) || IsTemporalType(t)
  {
  }

  /** TINY, SHORT, LONG and INT24 read 1, 2, 4 and 4 bytes. */
  function IntegerWidth(t: byte): (w: nat)
    ensures 1 <= w <= 4
  {
    if t == 0x01 then 1 else if t == 0x02 then 2 else 4
  }

  /** The numeric branches: integers, FLOAT, DOUBLE, NULL and LONGLONG. */
  function NumericCell(bodyData: seq<byte>, pos: int, t: byte, order: ByteOrder): (r: Result<Cell>)
    requires IsNumericType(t)
    ensures r.Ok? ==> r.value.next >= pos
  {
    if IsIntegerType(t) then IntCell(bodyData, pos, IntegerWidth(t), order)
    else if t == 0x04 then FloatingCell(bodyData, pos, 4)
    else if t == 0x05 then FloatingCell(bodyData, pos, 8)
    else LongCell(bodyData, pos, order)
  }

  /** The date branches: YEAR, DATE and NEWDATE. */
  function DateTypeCell(bodyData: seq<byte>, pos: int, t: byte): (r: Result<Cell>)
    requires IsDateType(t)
    ensures r.Ok? ==> r.value.next >= pos
  {
    if t == 0x0d then YearCell(bodyData, pos) else DateCell(bodyData, pos)
  }

  /** The clock branches without a fraction: TIME, DATETIME and TIMESTAMP. */
  function ClockTypeCell(bodyData: seq<byte>, pos: int, t: byte): (r: Result<Cell>)
    requires IsClockType(t)
    ensures r.Ok? ==> r.value.next >= pos
  {
    if t == 0x0b then TimeCell(bodyData, pos)
    else if t == 0x0c then DateTimeCell(bodyData, pos)
    else TimestampCell(bodyData, pos)
  }

  /** The temporal branches with a fraction: TIMESTAMP2, DATETIME2, TIME2. */
  function Temporal2Cell(bodyData: seq<byte>, pos: int, colDef: ColumnDefine, order: ByteOrder): (r: Result<Cell>)
    requires IsTemporal2Type(colDef.columnType)
    ensures r.Ok? ==> r.value.next >= pos
  {
    if colDef.columnType == 0x11 then Timestamp2Cell(bodyData, pos, colDef, order)
    else if colDef.columnType == 0x12 then DateTime2Cell(bodyData, pos, colDef, order)
    else Time2Cell(bodyData, pos, colDef, order)
  }

  /** The text branches: STRING, VARCHAR, VAR_STRING and BLOB. */
  function TextCell(bodyData: seq<byte>, pos: int, colDef: ColumnDefine, charset: Option<string>, order: ByteOrder)
    : (r: Result<Cell>)
    requires IsTextType(colDef.columnType)
    ensures r.Ok? ==> r.value.next >= pos
  {
    if colDef.columnType == 0xfe then StringCell(bodyData, pos, charset, order)
    else if colDef.columnType == 0xfc then BlobCell(bodyData, pos, colDef, charset, order)
    else VarcharCell(bodyData, pos, colDef, charset, order)
  }

  /** The remaining branches: DECIMAL, NEWDECIMAL, BIT and GEOMETRY. */
  function OtherCell(bodyData: seq<byte>, pos: int, colDef: ColumnDefine, order: ByteOrder): (r: Result<Cell>)
    requires IsOtherType(colDef.columnType)
    ensures r.Ok? ==> r.value.next >= pos
  {
    if colDef.columnType == 0x10 then BitCell(bodyData, pos, colDef, order)
    else if colDef.columnType == 0xff then GeometryCell(bodyData, pos, colDef, order)
    else DecimalCell(bodyData, pos, colDef, order)
  }

  /** A column whose null bit is clear, read at pos by the switch on its type
      code. A type the switch does not know yields null and reads nothing. */
  function ColumnCell(bodyData: seq<byte>, pos: int, colDef: ColumnDefine, charset: Option<string>, order: ByteOrder)
    : (r: Result<Cell>)
    ensures r.Ok? ==> r.value.next >= pos
    ensures !IsReadType(colDef.columnType) ==> r == Ok(Cell(None, pos))
  {
    var t := colDef.columnType;
    if IsNumericType(t) then NumericCell(bodyData, pos, t, order)
    else if IsDateType(t) then DateTypeCell(bodyData, pos, t)
    else if IsClockType(t) then ClockTypeCell(bodyData, pos, t)
    else if IsTemporal2Type(t) then Temporal2Cell(bodyData, pos, colDef, order)
    else if IsTextType(t) then TextCell(bodyData, pos, colDef, charset, order)
    else if IsOtherType(t) then OtherCell(bodyData, pos, colDef, order)
    else Ok(Cell(None, pos))
  }

  // ------------------------------------------------------------ the decimal branch in place

  /** The DECIMAL branch in the order the reader runs it: an empty copy
      throws, else the magnitude's groups are read and the sign applied. */
  lemma DecimalCellOfSteps(raw: seq<byte>, m: int, next: int, v: Result<(int, nat)>)
    requires |raw| > 0 ==> (FractionWithinScale(Precision(m), Scale(m));
      v == MagnitudeValue(Magnitude(raw), LayoutOf(Precision(m), Scale(m)), Scale(m)))
    ensures |raw| == 0 ==> DecimalCellOf(raw, m, next) == Err(IndexOutOfBounds)
    ensures |raw| > 0 && v.Err? ==> DecimalCellOf(raw, m, next) == Err(v.error)
    ensures |raw| > 0 && v.Ok? ==>
      DecimalCellOf(raw, m, next) == Ok(Cell(Some(DecimalValue(if IsNegative(raw) then -v.value.0 else v.value.0, v.value.1)), next))
  {
  }

  /** Once the metadata m is known, the branch reads the width its layout
      gives. */
  lemma DecimalCellIsAt(bodyData: seq<byte>, pos: int, colDef: ColumnDefine, order: ByteOrder, m: int)
    requires MetaValue(colDef, order) == Ok(m)
    ensures DecimalCell(bodyData, pos, colDef, order) == DecimalCellAt(bodyData, pos, m, LayoutOf(Precision(m), Scale(m)).Width())
  {
  }

  /** The DECIMAL branch as RowsEventBody runs it: the stored bytes are
      copied into an array, the sign is undone in that array in place, and
      the groups are read from it. */
  method ReadDecimal(bodyData: seq<byte>, pos: int, colDef: ColumnDefine, order: ByteOrder) returns (r: Result<Cell>)
    ensures r == DecimalCell(bodyData, pos, colDef, order)
  {
    var meta := MetaValue(colDef, order);
    if meta.Err? {
      return Err(meta.error);
    }
    DecimalCellIsAt(bodyData, pos, colDef, order, meta.value);
    r := ReadDecimalAt(bodyData, pos, meta.value, LayoutOf(Precision(meta.value), Scale(meta.value)).Width());
  }

  /** The DECIMAL branch once the metadata m and the width w are known. */
  method ReadDecimalAt(bodyData: seq<byte>, pos: int, m: int, w: int) returns (r: Result<Cell>)
    ensures r == DecimalCellAt(bodyData, pos, m, w)
  {
    var raw := CopyOfRange(bodyData, pos, pos + w);
    DecimalCellAtCopy(bodyData, pos, m, w, raw);
    match raw
    case Err(e) => r := Err(e);
    case Ok(bytes) => r := ReadDecimalBytes(bytes, m, pos + w);
  }

  /** The branch fails as the copy of its w bytes does, or decodes the copy. */
  lemma DecimalCellAtCopy(bodyData: seq<byte>, pos: int, m: int, w: int, raw: Result<seq<byte>>)
    requires raw == CopyOfRange(bodyData, pos, pos + w)
    ensures raw.Err? ==> DecimalCellAt(bodyData, pos, m, w) == Err(raw.error)
    ensures raw.Ok? ==> DecimalCellAt(bodyData, pos, m, w) == DecimalCellOf(raw.value, m, pos + w)
  {
  }

  /** The copied bytes raw of a DECIMAL with metadata m: put into an array,
      their sign undone in place, their groups read. */
  method ReadDecimalBytes(raw: seq<byte>, m: int, next: int) returns (r: Result<Cell>)
    ensures r == DecimalCellOf(raw, m, next)
  {
    var precision, scale := Precision(m), Scale(m);
    var rawDecimalValue := new byte[|raw|](i requires 0 <= i < |raw| => raw[i]);
    assert rawDecimalValue[..] == raw;
    var negative := RestoreMagnitude(rawDecimalValue);
    if negative.Err? {
      DecimalCellOfSteps(raw, m, next, Err(negative.error));
      return Err(negative.error);
    }
    FractionWithinScale(precision, scale);
    var v := MagnitudeValue(rawDecimalValue[..], LayoutOf(precision, scale), scale);
    DecimalCellOfSteps(raw, m, next, v);
    if v.Err? {
      return Err(v.error);
    }
    var decimalValue := if negative.value then -v.value.0 else v.value.0;
    r := Ok(Cell(Some(DecimalValue(decimalValue, v.value.1)), next));
  }

  /** One column of the switch, the DECIMAL branch run in place. */
  method ReadColumn(bodyData: seq<byte>, pos: int, colDef: ColumnDefine, charset: Option<string>, order: ByteOrder)
    returns (r: Result<Cell>)
    ensures r == ColumnCell(bodyData, pos, colDef, charset, order)
  {
    if colDef.columnType == 0x00 || colDef.columnType == 0xf6 {
      ColumnCellIsDecimal(bodyData, pos, colDef, charset, order);
      r := ReadDecimal(bodyData, pos, colDef, order);
    } else {
      r := ColumnCell(bodyData, pos, colDef, charset, order);
    }
  }

  // ------------------------------------------------------------ which branch reads a type

  lemma ColumnCellIsVarchar(bodyData: seq<byte>, pos: int, colDef: ColumnDefine, charset: Option<string>, order: ByteOrder)
    requires colDef.columnType == 0x0f || colDef.columnType == 0xfd
    ensures ColumnCell(bodyData, pos, colDef, charset, order) == VarcharCell(bodyData, pos, colDef, charset, order)
  {
    var t := colDef.columnType;
    assert !IsNumericType(t) && !IsDateType(t) && !IsClockType(t) && !IsTemporal2Type(t) && IsTextType(t);
    assert ColumnCell(bodyData, pos, colDef, charset, order) == TextCell(bodyData, pos, colDef, charset, order);
  }

  lemma ColumnCellIsBlob(bodyData: seq<byte>, pos: int, colDef: ColumnDefine, charset: Option<string>, order: ByteOrder)
    requires colDef.columnType == 0xfc
    ensures ColumnCell(bodyData, pos, colDef, charset, order) == BlobCell(bodyData, pos, colDef, charset, order)
  {
    var t := colDef.columnType;
    assert !IsNumericType(t) && !IsDateType(t) && !IsClockType(t) && !IsTemporal2Type(t) && IsTextType(t);
    assert ColumnCell(bodyData, pos, colDef, charset, order) == TextCell(bodyData, pos, colDef, charset, order);
  }

  lemma ColumnCellIsBit(bodyData: seq<byte>, pos: int, colDef: ColumnDefine, charset: Option<string>, order: ByteOrder)
    requires colDef.columnType == 0x10
    ensures ColumnCell(bodyData, pos, colDef, charset, order) == BitCell(bodyData, pos, colDef, order)
  {
    var t := colDef.columnType;
    assert !IsNumericType(t) && !IsDateType(t) && !IsClockType(t) && !IsTemporal2Type(t) && !IsTextType(t) && IsOtherType(t);
    assert ColumnCell(bodyData, pos, colDef, charset, order) == OtherCell(bodyData, pos, colDef, order);
  }

  lemma ColumnCellIsDecimal(bodyData: seq<byte>, pos: int, colDef: ColumnDefine, charset: Option<string>, order: ByteOrder)
    requires colDef.columnType == 0x00 || colDef.columnType == 0xf6
    ensures ColumnCell(bodyData, pos, colDef, charset, order) == DecimalCell(bodyData, pos, colDef, order)
  {
    var t := colDef.columnType;
    assert !IsNumericType(t) && !IsDateType(t) && !IsClockType(t) && !IsTemporal2Type(t) && !IsTextType(t) && IsOtherType(t);
    assert ColumnCell(bodyData, pos, colDef, charset, order) == OtherCell(bodyData, pos, colDef, order);
  }

  lemma ColumnCellIsTemporal2(bodyData: seq<byte>, pos: int, colDef: ColumnDefine, charset: Option<string>, order: ByteOrder)
    requires IsTemporal2Type(colDef.columnType)
    ensures ColumnCell(bodyData, pos, colDef, charset, order) == Temporal2Cell(bodyData, pos, colDef, order)
  {
    var t := colDef.columnType;
    assert !IsNumericType(t) && !IsDateType(t) && !IsClockType(t);
  }

  // ------------------------------------------------------------ fixed widths

  /** The numeric branches decode exactly when pos lies in the body. */
  lemma NumericCellDefined(bodyData: seq<byte>, pos: int, t: byte, order: ByteOrder, w: nat)
    requires IsNumericType(t) && FixedWidth(t) == Some(w)
    ensures var r := NumericCell(bodyData, pos, t, order);
      && (r.Ok? <==> 0 <= pos <= |bodyData|)
      && (r.Ok? ==> r.value.value.Some? && r.value.next == pos + w)
  {
  }

  /** The date branches decode exactly when pos lies in the body. */
  lemma DateTypeCellDefined(bodyData: seq<byte>, pos: int, t: byte, w: nat)
    requires IsDateType(t) && FixedWidth(t) == Some(w)
    ensures var r := DateTypeCell(bodyData, pos, t);
      && (r.Ok? <==> 0 <= pos <= |bodyData|)
      && (r.Ok? ==> r.value.value.Some? && r.value.next == pos + w)
  {
  }

  /** The clock branches decode exactly when pos lies in the body; a
      DATETIME also needs its second half to start in the body. */
  lemma ClockTypeCellDefined(bodyData: seq<byte>, pos: int, t: byte, w: nat)
    requires IsClockType(t) && FixedWidth(t) == Some(w)
    ensures var r := ClockTypeCell(bodyData, pos, t);
      r.Ok? <==> 0 <= pos && pos + (if t == 0x0c then 4 else 0) <= |bodyData|
    ensures var r := ClockTypeCell(bodyData, pos, t);
      r.Ok? ==> r.value.value.Some?
    ensures var r := ClockTypeCell(bodyData, pos, t);
      r.Ok? ==> r.value.next == pos + w
  {
    if t == 0x0b {
      assert w == 4;
      assert ClockTypeCell(bodyData, pos, t) == TimeCell(bodyData, pos);
    } else if t == 0x0c {
      assert w == 8;
      assert ClockTypeCell(bodyData, pos, t) == DateTimeCell(bodyData, pos);
    } else {
      assert w == 4;
      assert ClockTypeCell(bodyData, pos, t) == TimestampCell(bodyData, pos);
    }
  }

  /** A fixed-width column copies its bytes at pos and the copy is
      zero-padded past the end of the body, so it decodes exactly when pos
      lies in the body; a DATETIME also needs its second half to start in
      the body. */
  lemma FixedWidthDefined(bodyData: seq<byte>, pos: int, colDef: ColumnDefine, charset: Option<string>, order: ByteOrder)
    requires FixedWidth(colDef.columnType).Some?
    ensures var r := ColumnCell(bodyData, pos, colDef, charset, order);
      && (r.Ok? <==> 0 <= pos && pos + (if colDef.columnType == 0x0c then 4 else 0) <= |bodyData|)
      && (r.Ok? ==> r.value.value.Some? && r.value.next == pos + FixedWidth(colDef.columnType).value)
  {
    var t := colDef.columnType;
    FixedWidthTypes(t);
    if IsNumericType(t) {
      assert ColumnCell(bodyData, pos, colDef, charset, order) == NumericCell(bodyData, pos, t, order);
      NumericCellDefined(bodyData, pos, t, order, FixedWidth(t).value);
    } else if IsDateType(t) {
      assert ColumnCell(bodyData, pos, colDef, charset, order) == DateTypeCell(bodyData, pos, t);
      DateTypeCellDefined(bodyData, pos, t, FixedWidth(t).value);
    } else {
      assert ColumnCell(bodyData, pos, colDef, charset, order) == ClockTypeCell(bodyData, pos, t);
      ClockTypeCellDefined(bodyData, pos, t, FixedWidth(t).value);
    }
  }

  /** An integer column inside the body is the two's-complement value of its bytes. */
  lemma IntCellValue(bodyData: seq<byte>, pos: int, width: nat, order: ByteOrder)
    requires 1 <= width <= 4 && 0 <= pos && pos + width <= |bodyData|
    ensures SignedNumber(bodyData[pos..pos + width], order).Ok?
    ensures IntCell(bodyData, pos, width, order)
      == Ok(Cell(Some(IntValue(SignedNumber(bodyData[pos..pos + width], order).value)), pos + width))
  {
  }

  /** A LONGLONG column inside the body is the two's-complement value of its 8 bytes. */
  lemma LongCellValue(bodyData: seq<byte>, pos: int, order: ByteOrder)
    requires 0 <= pos && pos + 8 <= |bodyData|
    ensures SignedNumber(bodyData[pos..pos + 8], order).Ok?
    ensures LongCell(bodyData, pos, order)
      == Ok(Cell(Some(IntValue(SignedNumber(bodyData[pos..pos + 8], order).value)), pos + 8))
  {
  }

  /** A FLOAT or DOUBLE column inside the body keeps exactly its bytes. */
  lemma FloatingCellValue(bodyData: seq<byte>, pos: int, width: nat)
    requires (width == 4 || width == 8) && 0 <= pos && pos + width <= |bodyData|
    ensures var raw := bodyData[pos..pos + width];
      FloatingCell(bodyData, pos, width) == Ok(Cell(Some(if width == 4 then FloatValue(raw) else DoubleValue(raw)), pos + width))
  {
    CopyOfRangeInside(bodyData, pos, pos + width);
  }

  /** A YEAR column is its one byte read as a signed Java byte. */
  lemma YearCellValue(bodyData: seq<byte>, pos: int)
    requires 0 <= pos < |bodyData|
    ensures YearCell(bodyData, pos) == Ok(Cell(Some(IntValue(SignedByte(bodyData[pos]))), pos + 1))
  {
  }

  // ------------------------------------------------------------ length-prefixed values

  /** A length prefix of n bytes holding len in the file's byte order. */
  function LengthPrefix(len: nat, n: nat, order: ByteOrder): (p: seq<byte>)
    requires len < Pow256(n)
    ensures |p| == n
  {
    Ordered(EncodeLittleEndian(len, n), order)
  }

  /** A prefix of 1 to 4 bytes reads back the length it holds. */
  lemma PrefixValue(len: nat, n: nat, order: ByteOrder)
    requires 1 <= n <= 4 && len < Pow256(n) && len < 0x8000_0000
    ensures GetUnsignedInteger(LengthPrefix(len, n, order), order) == Ok(len)
  {
    UnsignedNumberRoundTrip(len, n, order);
    UnsignedIntegerView(LengthPrefix(len, n, order), order);
  }

  /** Some bytes, a length prefix, its data and more bytes form such a body
      when they fit in a Java array. */
  lemma PrefixedBody(before: seq<byte>, data: seq<byte>, after: seq<byte>, n: nat, order: ByteOrder)
    requires |data| < Pow256(n) && |before| + n + |data| + |after| < 0x8000_0000
    ensures HoldsPrefixed(before + LengthPrefix(|data|, n, order) + data + after, |before|, n, data, order)
  {
    var prefix := LengthPrefix(|data|, n, order);
    var bodyData := before + prefix + data + after;
    assert bodyData[|before|..|before| + n] == prefix;
    assert bodyData[|before| + n..|before| + n + |data|] == data;
  }

  /** The bytes at pos hold an n-byte length prefix for data, then data:
      the form MySQL writes a length-prefixed value in, within a Java array
      (fewer than 2^31 bytes). */
  predicate HoldsPrefixed(bodyData: seq<byte>, pos: int, n: nat, data: seq<byte>, order: ByteOrder) {
    && 0 <= pos && pos + n + |data| <= |bodyData| < 0x8000_0000 && |data| < Pow256(n)
    && bodyData[pos..pos + n] == LengthPrefix(|data|, n, order)
    && bodyData[pos + n..pos + n + |data|] == data
  }

  /** Such a prefix is copied as written and reads back the data's length. */
  lemma PrefixedLength(bodyData: seq<byte>, pos: int, n: nat, data: seq<byte>, order: ByteOrder)
    requires 1 <= n <= 4 && |data| < 0x8000_0000 && HoldsPrefixed(bodyData, pos, n, data, order)
    ensures CopyOfRange(bodyData, pos, pos + n) == Ok(LengthPrefix(|data|, n, order))
    ensures GetUnsignedInteger(LengthPrefix(|data|, n, order), order) == Ok(|data|)
    ensures GetUnsignedIntegerAt(bodyData, pos, pos + n, order) == Ok(|data|)
  {
    CopyOfRangeSlice(bodyData, pos, LengthPrefix(|data|, n, order));
    PrefixValue(|data|, n, order);
  }

  /** After such a prefix, the data reads back as a cell. */
  lemma PrefixedData(bodyData: seq<byte>, pos: int, n: nat, data: seq<byte>, charset: Option<string>, order: ByteOrder)
    requires HoldsPrefixed(bodyData, pos, n, data, order)
    ensures BytesAfterLength(bodyData, pos + n, Ok(|data|), charset) == Ok(Cell(Some(TextOrBytes(data, charset)), pos + n + |data|))
  {
    CopyOfRangeSlice(bodyData, pos + n, data);
    BytesAfterLengthRead(bodyData, pos + n, data, charset);
  }

  /** Bytes of a known length at pos read back as those bytes. */
  lemma BytesAfterLengthRead(bodyData: seq<byte>, pos: int, data: seq<byte>, charset: Option<string>)
    requires 0 <= pos <= |bodyData| && pos + |data| < 0x8000_0000 && CopyOfRange(bodyData, pos, pos + |data|) == Ok(data)
    ensures BytesAfterLength(bodyData, pos, Ok(|data|), charset) == Ok(Cell(Some(TextOrBytes(data, charset)), pos + |data|))
  {
  }

  /** Once the metadata is known, a VARCHAR reads its prefix and then its bytes. */
  lemma VarcharCellIsAfter(bodyData: seq<byte>, pos: int, colDef: ColumnDefine, charset: Option<string>,
                           order: ByteOrder, meta: int, n: int)
    requires MetaValue(colDef, order) == Ok(meta) && n == VarcharPrefix(meta)
    ensures VarcharCell(bodyData, pos, colDef, charset, order)
      == BytesAfterLength(bodyData, pos + n, GetUnsignedIntegerAt(bodyData, pos, pos + n, order), charset)
  {
  }

  /** A VARCHAR value written as its length prefix (1 byte below a declared
      maximum of 256, else 2) and its bytes reads back as those bytes, and
      the next column starts right after them. */
  lemma VarcharCellRoundTrip(bodyData: seq<byte>, pos: int, colDef: ColumnDefine, charset: Option<string>,
                             order: ByteOrder, meta: int, data: seq<byte>)
    requires MetaValue(colDef, order) == Ok(meta)
    requires HoldsPrefixed(bodyData, pos, VarcharPrefix(meta), data, order)
    ensures VarcharCell(bodyData, pos, colDef, charset, order)
      == Ok(Cell(Some(TextOrBytes(data, charset)), pos + VarcharPrefix(meta) + |data|))
  {
    var n := VarcharPrefix(meta);
    assert Pow256(2) == 65536;
    VarcharCellIsAfter(bodyData, pos, colDef, charset, order, meta, n);
    PrefixedLength(bodyData, pos, n, data, order);
    PrefixedData(bodyData, pos, n, data, charset, order);
  }

  /** The same through the switch. */
  lemma VarcharRoundTrip(bodyData: seq<byte>, pos: int, colDef: ColumnDefine, charset: Option<string>,
                         order: ByteOrder, meta: int, data: seq<byte>)
    requires colDef.columnType == 0x0f || colDef.columnType == 0xfd
    requires MetaValue(colDef, order) == Ok(meta)
    requires HoldsPrefixed(bodyData, pos, VarcharPrefix(meta), data, order)
    ensures ColumnCell(bodyData, pos, colDef, charset, order)
      == Ok(Cell(Some(TextOrBytes(data, charset)), pos + VarcharPrefix(meta) + |data|))
  {
    VarcharCellRoundTrip(bodyData, pos, colDef, charset, order, meta, data);
    ColumnCellIsVarchar(bodyData, pos, colDef, charset, order);
  }

  /** Once its prefix is copied and read, a BLOB reads that many bytes. */
  lemma BlobCellAtAfter(bodyData: seq<byte>, pos: int, n: int, charset: Option<string>, order: ByteOrder,
                        prefix: seq<byte>, len: int)
    requires CopyOfRange(bodyData, pos, pos + n) == Ok(prefix) && GetUnsignedInteger(prefix, order) == Ok(len)
    ensures BlobCellAt(bodyData, pos, n, charset, order) == BytesAfterLength(bodyData, pos + n, Ok(len), charset)
  {
  }

  /** A BLOB with a 4-byte length prefix FF FF FF 7F read LITTLE_ENDIAN,
      0x7FFFFFFF, carries the int position past Integer.MAX_VALUE wherever
      it starts: the sum wraps below the position and the copy throws
      IllegalArgumentException. */
  lemma BlobLengthWraps(bodyData: seq<byte>, pos: int, colDef: ColumnDefine, charset: Option<string>)
    requires MetaValue(colDef, LittleEndian) == Ok(4)
    requires 0 <= pos && pos + 4 <= |bodyData| && bodyData[pos..pos + 4] == [0xFF, 0xFF, 0xFF, 0x7F]
    ensures GetUnsignedInteger(bodyData[pos..pos + 4], LittleEndian) == Ok(0x7FFF_FFFF)
    ensures BlobCell(bodyData, pos, colDef, charset, LittleEndian) == Err(IllegalArgument)
  {
    CopyOfRangeInside(bodyData, pos, pos + 4);
    assert LittleEndianValue([0x7F]) == 0x7F;
    assert LittleEndianValue([0xFF, 0xFF, 0xFF, 0x7F]) == 0x7FFF_FFFF;
    assert UnsignedNumber(bodyData[pos..pos + 4], LittleEndian) == Ok(0x7FFF_FFFF);
    BlobCellAtAfter(bodyData, pos, 4, charset, LittleEndian, bodyData[pos..pos + 4], 0x7FFF_FFFF);
  }

  /** A BLOB value written as a length prefix of as many bytes as the
      metadata says (1 to 4) and its bytes reads back as those bytes. */
  lemma BlobCellRoundTrip(bodyData: seq<byte>, pos: int, colDef: ColumnDefine, charset: Option<string>,
                          order: ByteOrder, n: nat, data: seq<byte>)
    requires MetaValue(colDef, order) == Ok(n) && 1 <= n <= 4 && |data| < 0x8000_0000
    requires HoldsPrefixed(bodyData, pos, n, data, order)
    ensures BlobCell(bodyData, pos, colDef, charset, order) == Ok(Cell(Some(TextOrBytes(data, charset)), pos + n + |data|))
  {
    assert BlobCell(bodyData, pos, colDef, charset, order) == BlobCellAt(bodyData, pos, n, charset, order);
    PrefixedLength(bodyData, pos, n, data, order);
    BlobCellAtAfter(bodyData, pos, n, charset, order, LengthPrefix(|data|, n, order), |data|);
    PrefixedData(bodyData, pos, n, data, charset, order);
  }

  /** The same through the switch. */
  lemma BlobRoundTrip(bodyData: seq<byte>, pos: int, colDef: ColumnDefine, charset: Option<string>,
                      order: ByteOrder, n: nat, data: seq<byte>)
    requires colDef.columnType == 0xfc
    requires MetaValue(colDef, order) == Ok(n) && 1 <= n <= 4 && |data| < 0x8000_0000
    requires HoldsPrefixed(bodyData, pos, n, data, order)
    ensures ColumnCell(bodyData, pos, colDef, charset, order) == Ok(Cell(Some(TextOrBytes(data, charset)), pos + n + |data|))
  {
    BlobCellRoundTrip(bodyData, pos, colDef, charset, order, n, data);
    ColumnCellIsBlob(bodyData, pos, colDef, charset, order);
  }

  // ------------------------------------------------------------ BIT and the fractions

  /** A BIT column of nbits bits takes the fewest whole bytes that hold them. */
  lemma BitCellWidth(bodyData: seq<byte>, pos: int, colDef: ColumnDefine, order: ByteOrder, meta: int)
    requires MetaValue(colDef, order) == Ok(meta) && 0 <= meta
    ensures var r := BitCell(bodyData, pos, colDef, order);
      && (r.Ok? <==> 0 <= pos <= |bodyData|)
      && (r.Ok? ==> var n := r.value.next - pos;
            8 * n - 8 < BitCount(meta) <= 8 * n && r.value.value.Some? && r.value.value.value.BytesValue?)
  {
    var nbits := BitCount(meta);
    assert 0 <= nbits;
    var n := Quot(nbits + 7, 8);
    assert n == (nbits + 7) / 8;
  }

  /** The same through the switch. */
  lemma BitColumnWidth(bodyData: seq<byte>, pos: int, colDef: ColumnDefine, charset: Option<string>, order: ByteOrder,
                       meta: int)
    requires colDef.columnType == 0x10
    requires MetaValue(colDef, order) == Ok(meta) && 0 <= meta
    ensures var r := ColumnCell(bodyData, pos, colDef, charset, order);
      && (r.Ok? <==> 0 <= pos <= |bodyData|)
      && (r.Ok? ==> var n := r.value.next - pos;
            8 * n - 8 < BitCount(meta) <= 8 * n && r.value.value.Some? && r.value.value.value.BytesValue?)
  {
    ColumnCellIsBit(bodyData, pos, colDef, charset, order);
    BitCellWidth(bodyData, pos, colDef, order, meta);
  }

  /** With a precision fsp from 0 to 6 and the fraction inside the body,
      the fraction takes (fsp + 1) / 2 bytes and is present exactly when
      fsp is positive. */
  lemma FractionAtWidth(bodyData: seq<byte>, pos: int, colDef: ColumnDefine, order: ByteOrder, unsigned: bool, fsp: int)
    requires MetaValue(colDef, order) == Ok(fsp) && 0 <= fsp <= 6
    requires 0 <= pos && pos + (fsp + 1) / 2 <= |bodyData|
    ensures var f := FractionAt(bodyData, pos, colDef, order, unsigned);
      f.Ok? && f.value.1 == pos + (fsp + 1) / 2 && (f.value.0.Some? <==> fsp > 0)
  {
    TimeFractionalLengthBound(fsp);
    assert TimeFractionalLength(fsp) == (fsp + 1) / 2;
  }

  /** The bytes TIMESTAMP2, DATETIME2 and TIME2 take before the fraction. */
  function Temporal2Base(t: byte): nat {
    if t == 0x11 then 4 else if t == 0x12 then 5 else 3
  }

  /** With a fractional-second precision fsp from 0 to 6, a TIMESTAMP2,
      DATETIME2 or TIME2 value inside the body takes its base bytes and
      (fsp + 1) / 2 fraction bytes. */
  lemma Temporal2CellWidth(bodyData: seq<byte>, pos: int, colDef: ColumnDefine, order: ByteOrder, fsp: int)
    requires IsTemporal2Type(colDef.columnType)
    requires MetaValue(colDef, order) == Ok(fsp) && 0 <= fsp <= 6
    requires 0 <= pos && pos + Temporal2Base(colDef.columnType) + (fsp + 1) / 2 <= |bodyData|
    ensures var r := Temporal2Cell(bodyData, pos, colDef, order);
      r.Ok? && r.value.value.Some? && r.value.next == pos + Temporal2Base(colDef.columnType) + (fsp + 1) / 2
  {
    var t := colDef.columnType;
    var base := Temporal2Base(t);
    FractionAtWidth(bodyData, pos + base, colDef, order, t == 0x11, fsp);
    CopyOfRangeInside(bodyData, pos, pos + base);
  }

  /** The same through the switch. */
  lemma Temporal2Width(bodyData: seq<byte>, pos: int, colDef: ColumnDefine, charset: Option<string>, order: ByteOrder,
                       fsp: int)
    requires IsTemporal2Type(colDef.columnType)
    requires MetaValue(colDef, order) == Ok(fsp) && 0 <= fsp <= 6
    requires 0 <= pos && pos + Temporal2Base(colDef.columnType) + (fsp + 1) / 2 <= |bodyData|
    ensures var r := ColumnCell(bodyData, pos, colDef, charset, order);
      r.Ok? && r.value.value.Some? && r.value.next == pos + Temporal2Base(colDef.columnType) + (fsp + 1) / 2
  {
    ColumnCellIsTemporal2(bodyData, pos, colDef, charset, order);
    Temporal2CellWidth(bodyData, pos, colDef, order, fsp);
  }

  // ------------------------------------------------------------ DECIMAL

  /** A DECIMAL's metadata meta packs its precision and scale; within the
      shapes DecimalFits admits, the stored bytes raw are exactly what MySQL
      writes for the column. */
  predicate DecimalFits(meta: int, raw: seq<byte>) {
    var precision, scale := Precision(meta), Scale(meta);
    && 0 <= meta && scale <= precision
    && (precision - scale) / 9 <= 1 && scale / 9 <= 1 && (scale % 9 != 0 || scale == 0)
    && 1 <= |raw| && |raw| == FormatOf(precision, scale).Width()
    && FormatFits(Magnitude(raw), FormatOf(precision, scale))
  }

  /** For a DECIMAL(precision, scale) with at most one nine-digit word in
      each part and a scale of 0 or not a multiple of nine, a column holding
      bytes as MySQL writes them reads MySQL's value, and the next column
      starts after the format's width. */
  lemma DecimalCellValue(bodyData: seq<byte>, pos: int, colDef: ColumnDefine, order: ByteOrder, meta: int, raw: seq<byte>)
    requires MetaValue(colDef, order) == Ok(meta) && DecimalFits(meta, raw)
    requires 0 <= pos && pos + |raw| <= |bodyData| && bodyData[pos..pos + |raw|] == raw
    ensures var v := FormatValue(raw, Precision(meta), Scale(meta));
      DecimalCell(bodyData, pos, colDef, order) == Ok(Cell(Some(DecimalValue(v.0, v.1)), pos + |raw|))
  {
    DecimalWidthFits(meta, raw);
    DecimalCellIsAt(bodyData, pos, colDef, order, meta);
    CopyOfRangeSlice(bodyData, pos, raw);
    DecimalCellAtOf(bodyData, pos, meta, raw);
    DecimalCellOfValue(raw, meta, pos + |raw|);
  }

  /** The bytes DecimalFits admits are as many as the reader's layout takes. */
  lemma DecimalWidthFits(meta: int, raw: seq<byte>)
    requires DecimalFits(meta, raw)
    ensures LayoutOf(Precision(meta), Scale(meta)).Width() == |raw|
  {
    FormatWidthIsLayoutWidth(Precision(meta), Scale(meta));
  }

  /** Once the copy yields raw, the branch decodes raw. */
  lemma DecimalCellAtOf(bodyData: seq<byte>, pos: int, meta: int, raw: seq<byte>)
    requires CopyOfRange(bodyData, pos, pos + |raw|) == Ok(raw)
    ensures DecimalCellAt(bodyData, pos, meta, |raw|) == DecimalCellOf(raw, meta, pos + |raw|)
  {
  }

  /** The DECIMAL branch once its bytes are copied. */
  lemma DecimalCellOfValue(raw: seq<byte>, meta: int, next: int)
    requires DecimalFits(meta, raw)
    ensures var v := FormatValue(raw, Precision(meta), Scale(meta));
      DecimalCellOf(raw, meta, next) == Ok(Cell(Some(DecimalValue(v.0, v.1)), next))
  {
    FormatAgreement(raw, Precision(meta), Scale(meta));
  }

  /** The same through the switch. */
  lemma DecimalColumnValue(bodyData: seq<byte>, pos: int, colDef: ColumnDefine, charset: Option<string>,
                           order: ByteOrder, meta: int, raw: seq<byte>)
    requires colDef.columnType == 0x00 || colDef.columnType == 0xf6
    requires MetaValue(colDef, order) == Ok(meta) && DecimalFits(meta, raw)
    requires 0 <= pos && pos + |raw| <= |bodyData| && bodyData[pos..pos + |raw|] == raw
    ensures var v := FormatValue(raw, Precision(meta), Scale(meta));
      ColumnCell(bodyData, pos, colDef, charset, order) == Ok(Cell(Some(DecimalValue(v.0, v.1)), pos + |raw|))
  {
    ColumnCellIsDecimal(bodyData, pos, colDef, charset, order);
    DecimalCellValue(bodyData, pos, colDef, order, meta, raw);
  }

  /** A DECIMAL whose scale is a positive multiple of nine never decodes:
      the reader's empty leftover read throws whatever the bytes are. */
  lemma WholeWordDecimalColumnFails(bodyData: seq<byte>, pos: int, colDef: ColumnDefine, charset: Option<string>,
                                    order: ByteOrder, meta: int)
    requires colDef.columnType == 0x00 || colDef.columnType == 0xf6
    requires MetaValue(colDef, order) == Ok(meta) && 0 < Scale(meta) && Scale(meta) % 9 == 0
    ensures ColumnCell(bodyData, pos, colDef, charset, order).Err?
  {
    ColumnCellIsDecimal(bodyData, pos, colDef, charset, order);
    WholeWordDecimalFails(bodyData, pos, colDef, order, meta);
  }

  /** The same for the DECIMAL branch alone. */
  lemma WholeWordDecimalFails(bodyData: seq<byte>, pos: int, colDef: ColumnDefine, order: ByteOrder, meta: int)
    requires MetaValue(colDef, order) == Ok(meta) && 0 < Scale(meta) && Scale(meta) % 9 == 0
    ensures DecimalCell(bodyData, pos, colDef, order).Err?
  {
    var w := LayoutOf(Precision(meta), Scale(meta)).Width();
    DecimalCellIsAt(bodyData, pos, colDef, order, meta);
    var raw := CopyOfRange(bodyData, pos, pos + w);
    DecimalCellAtCopy(bodyData, pos, meta, w, raw);
    if raw.Ok? {
      WholeWordCopyFails(raw.value, meta, pos + w);
    }
  }

  /** The same once the bytes are copied. */
  lemma WholeWordCopyFails(raw: seq<byte>, meta: int, next: int)
    requires 0 < Scale(meta) && Scale(meta) % 9 == 0
    ensures DecimalCellOf(raw, meta, next).Err?
  {
    WholeWordFractionFails(raw, Precision(meta), Scale(meta));
  }
}
