/** The optional metadata block at the end of a table map: type-length-value
    fields keyed by field type, and the two lists read out of them. */
module OptionalMetaDatas {
  import opened Wrappers
  import opened Java
  import opened ParserHelper

  const Signedness: int := 1
  const DefaultCharset: int := 2
  const ColumnCharset: int := 3
  const ColumnName: int := 4
  const SetStrValue: int := 5
  const EnumStrValue: int := 6
  const GeometryType: int := 7
  const SimplePrimaryKey: int := 8
  const PrimaryKeyWithPrefix: int := 9
  const EnumAndSetDefaultCharset: int := 10
  const EnumAndSetColumnCharset: int := 11

  /** The stored fields, keyed by the signed value of their type byte. */
  datatype OptionalMetaData = OptionalMetaData(fields: map<int, seq<byte>>, order: ByteOrder) {
    /** getFieldValue(t), and the named getters for each field type: the
        stored bytes, or null. */
    function FieldValue(fieldType: int): (r: Option<seq<byte>>)
      ensures r.Some? <==> fieldType in fields
      ensures r.Some? ==> r.value == fields[fieldType]
    {
      if fieldType in fields then Some(fields[fieldType]) else None
    }
  }

  /** getOptionalMetaDataFieldName. */
  function FieldName(fieldType: int): (r: string)
    ensures !(1 <= fieldType <= 11) ==> |r| >= 7 && r[..5] == "Type{" && r[|r| - 1] == '}'
    ensures !(1 <= fieldType <= 11) && IsInt(fieldType) ==> ParseInt(r[5..|r| - 1]) == Ok(fieldType)
  {
    match fieldType
    case 1 => "SIGNEDNESS"
    case 2 => "DEFAULT_CHARSET"
    case 3 => "COLUMN_CHARSET"
    case 4 => "COLUMN_NAME"
    case 5 => "SET_STR_VALUE"
    case 6 => "ENUM_STR_VALUE"
    case 7 => "GEOMETRY_TYPE"
    case 8 => "SIMPLE_PRIMARY_KEY"
    case 9 => "PRIMARY_KEY_WITH_PREFIX"
    case 10 => "ENUM_AND_SET_DEFAULT_CHARSET"
    case 11 => "ENUM_AND_SET_COLUMN_CHARSET"
    case _ =>
      var digits := LongToString(fieldType);
      var r := "Type{" + digits + "}";
      assert r[..5] == "Type{" && r[5..|r| - 1] == digits;
      assert IsInt(fieldType) ==> ParseInt(digits) == Ok(fieldType) by {
        if IsInt(fieldType) {
          ParseLongToString(fieldType);
          ParseIntOfLong(digits);
        }
      }
      r
  }

  /** A text that parses as a long inside the int range parses as an int. */
  lemma ParseIntOfLong(s: string)
    requires ParseLong(s).Ok? && IsInt(ParseLong(s).value)
    ensures ParseInt(s) == ParseLong(s)
  {
  }

  // ------------------------------------------------------------ the TLV loop

  /** The fields read from bodyData[pos..endPos) on top of acc: while more
      than one byte remains, a type byte, a packed-integer length and that
      many value bytes; a value of length 0 (or a length read as negative) is
      not stored, and a later value of the same type replaces an earlier one. */
  function TlvFields(bodyData: seq<byte>, pos: int, endPos: int, order: ByteOrder,
                     acc: map<int, seq<byte>>): (r: Result<map<int, seq<byte>>>)
    requires 0 <= pos
    ensures r.Ok? && NonEmptyValues(acc) ==> NonEmptyValues(r.value)
    ensures r.Ok? ==> acc.Keys <= r.value.Keys
    decreases endPos - pos, 1
  {
    if endPos - pos <= 1 then Ok(acc)
    else TlvFieldsAfter(bodyData, pos, endPos, order, acc, TlvField(bodyData, pos, order))
  }

  /** Every stored value holds at least one byte. */
  predicate NonEmptyValues(fields: map<int, seq<byte>>) {
    forall t :: t in fields ==> |fields[t]| > 0
  }

  /** What TlvField guarantees of a field read at pos. */
  predicate ReadAt(field: Result<Tlv>, pos: int) {
    field.Ok? ==> field.value.next > pos && (field.value.value.Some? ==> |field.value.value.value| > 0)
  }

  /** The rest of the TLV loop once the field at pos has been read. */
  function TlvFieldsAfter(bodyData: seq<byte>, pos: int, endPos: int, order: ByteOrder,
                          acc: map<int, seq<byte>>, field: Result<Tlv>): (r: Result<map<int, seq<byte>>>)
    requires 0 <= pos && endPos - pos > 1 && ReadAt(field, pos)
    ensures r.Ok? && NonEmptyValues(acc) ==> NonEmptyValues(r.value)
    ensures r.Ok? ==> acc.Keys <= r.value.Keys
    decreases endPos - pos, 0
  {
    match field
    case Err(e) => Err(e)
    case Ok(f) =>
      TlvFields(bodyData, f.next, endPos, order, StoreOne(acc, f))
  }

  /** One field read at pos: its type, its value (None for a length that is
      not positive) and the position after it. */
  datatype Tlv = Tlv(fieldType: int, value: Option<seq<byte>>, next: int)

  function TlvField(bodyData: seq<byte>, pos: int, order: ByteOrder): (r: Result<Tlv>)
    requires 0 <= pos
    ensures r.Ok? ==> r.value.next > pos && IsInt(r.value.fieldType)
    ensures r.Ok? && r.value.value.Some? ==> |r.value.value.value| > 0
  {
    var rawFieldType :- CopyOfRange(bodyData, pos, pos + 1);
    var fieldType := GetInteger(rawFieldType, order).value;
    var rawFieldLength :- GetPackedInteger(bodyData, pos + 1);
    TlvValue(bodyData, fieldType, pos + 1 + |rawFieldLength|, GetUnsignedInteger(rawFieldLength, order).value)
  }

  /** The value part of a field whose length has been read: nothing for a
      length that is not positive, otherwise the copy up to the int sum
      `pos += fieldLength`, which past Integer.MAX_VALUE wraps below
      valuePos and makes the copy throw. */
  function TlvValue(bodyData: seq<byte>, fieldType: int, valuePos: int, fieldLength: int): (r: Result<Tlv>)
    requires 0 <= valuePos && IsInt(fieldLength)
    ensures r.Ok? <==> fieldLength <= 0 || (valuePos <= |bodyData| && valuePos + fieldLength <= 0x7FFF_FFFF)
    ensures r.Ok? ==>
      && r.value.fieldType == fieldType
      && (r.value.value.Some? <==> fieldLength > 0)
      && r.value.next == valuePos + (if fieldLength > 0 then fieldLength else 0)
      && (r.value.value.Some? ==> CopyOfRange(bodyData, valuePos, r.value.next) == Ok(r.value.value.value))
    ensures r.Err? ==> r == Err(IllegalArgument) || r == Err(IndexOutOfBounds)
    ensures fieldLength > 0 && valuePos + fieldLength > 0x7FFF_FFFF ==> r == Err(IllegalArgument)
  {
    if fieldLength > 0 then
      var valueEnd := Int32(valuePos + fieldLength);
      IntAdvance(valuePos, fieldLength);
      var fieldValue :- CopyOfRange(bodyData, valuePos, valueEnd);
      Ok(Tlv(fieldType, Some(fieldValue), valueEnd))
    else
      Ok(Tlv(fieldType, None, valuePos))
  }

  /** A field read at pos is its signed type byte, a packed length read
      unsigned, and, when that length is positive, that many value bytes,
      ending at or below Integer.MAX_VALUE: the int sum `pos += fieldLength`
      wraps past it and the copy throws. */
  lemma TlvFieldLayout(bodyData: seq<byte>, pos: int, order: ByteOrder)
    requires 0 <= pos
    ensures var r := TlvField(bodyData, pos, order);
      r.Ok? ==>
      && pos + 1 < |bodyData| && GetPackedInteger(bodyData, pos + 1).Ok?
      && r.value.fieldType == GetInteger([bodyData[pos]], order).value
      && var prefix := GetPackedInteger(bodyData, pos + 1).value;
         var len := GetUnsignedInteger(prefix, order).value;
         && (r.value.value.Some? <==> len > 0)
         && r.value.next == pos + 1 + |prefix| + (if len > 0 then len else 0)
         && (len > 0 ==> pos + 1 + |prefix| + len <= 0x7FFF_FFFF)
         && (r.value.value.Some? ==> CopyOfRange(bodyData, pos + 1 + |prefix|, r.value.next) == Ok(r.value.value.value))
  {
    var r := TlvField(bodyData, pos, order);
    if r.Ok? {
      assert CopyOfRange(bodyData, pos, pos + 1).value == [bodyData[pos]];
    }
  }

  /** A field whose 8-byte packed length FE FF FF 7F 00 00 00 00 reads
      0x7FFFFFFE BIG_ENDIAN carries the int position past
      Integer.MAX_VALUE, wherever it starts: the sum wraps to a negative end
      and the copy throws IllegalArgumentException. With pos 0 and nothing
      after the length, the body is 04 FE FF FF 7F 00 00 00 00. */
  lemma TlvFieldLengthWraps(bodyData: seq<byte>, pos: int)
    requires 0 <= pos && pos + 9 <= |bodyData|
    requires bodyData[pos + 1..pos + 9] == [0xFE, 0xFF, 0xFF, 0x7F, 0, 0, 0, 0]
    ensures GetPackedInteger(bodyData, pos + 1) == Ok(bodyData[pos + 1..pos + 9])
    ensures GetUnsignedInteger(bodyData[pos + 1..pos + 9], BigEndian) == Ok(0x7FFF_FFFE)
    ensures TlvField(bodyData, pos, BigEndian) == Err(IllegalArgument)
  {
    assert bodyData[pos + 1] == 0xFE;
    CopyOfRangeInside(bodyData, pos + 1, pos + 9);
    WrappingLength(bodyData[pos + 1..pos + 9]);
    CopyOfRangeInside(bodyData, pos, pos + 1);
  }

  /** The length bytes of that field read 0x7FFFFFFE BIG_ENDIAN. */
  lemma WrappingLength(prefix: seq<byte>)
    requires prefix == [0xFE, 0xFF, 0xFF, 0x7F, 0, 0, 0, 0]
    ensures GetUnsignedInteger(prefix, BigEndian) == Ok(0x7FFF_FFFE)
  {
    ReversedTwice(prefix);
    assert LittleEndianValue([0, 0, 0, 0]) == 0;
    assert LittleEndianValue([0xFE, 0xFF, 0xFF, 0x7F, 0, 0, 0, 0]) == 0x7FFF_FFFE;
  }

  /** The fields the TLV loop reads from bodyData[pos..endPos), in order. */
  function TlvList(bodyData: seq<byte>, pos: int, endPos: int, order: ByteOrder): (r: Result<seq<Tlv>>)
    requires 0 <= pos
    decreases endPos - pos
  {
    if endPos - pos <= 1 then Ok([])
    else
      var field :- TlvField(bodyData, pos, order);
      var rest :- TlvList(bodyData, field.next, endPos, order);
      Ok([field] + rest)
  }

  /** Storing fields into a map in order; a field without a value is skipped. */
  function Store(acc: map<int, seq<byte>>, fields: seq<Tlv>): map<int, seq<byte>>
    decreases |fields|
  {
    if |fields| == 0 then acc
    else Store(StoreOne(acc, fields[0]), fields[1..])
  }

  /** One pass of the TLV loop's store: `fields.put(type, value)` when there is a value. */
  function StoreOne(acc: map<int, seq<byte>>, f: Tlv): map<int, seq<byte>> {
    if f.value.Some? then MapPut(acc, f.fieldType, f.value.value) else acc
  }

  predicate Stores(f: Tlv, fieldType: int) {
    f.fieldType == fieldType && f.value.Some?
  }

  /** The map the loop builds is the fields it reads, stored in order. */
  lemma {:induction false} TlvFieldsStoresList(bodyData: seq<byte>, pos: int, endPos: int, order: ByteOrder,
                                             acc: map<int, seq<byte>>)
    requires 0 <= pos
    ensures TlvFields(bodyData, pos, endPos, order, acc).Ok? <==> TlvList(bodyData, pos, endPos, order).Ok?
    ensures TlvFields(bodyData, pos, endPos, order, acc).Ok? ==>
      TlvFields(bodyData, pos, endPos, order, acc).value == Store(acc, TlvList(bodyData, pos, endPos, order).value)
    decreases endPos - pos
  {
    if endPos - pos > 1 {
      var field := TlvField(bodyData, pos, order);
      if field.Ok? {
        var f := field.value;
        var acc' := StoreOne(acc, f);
        TlvFieldsStoresList(bodyData, f.next, endPos, order, acc');
        var rest := TlvList(bodyData, f.next, endPos, order);
        if rest.Ok? {
          assert ([f] + rest.value)[1..] == rest.value;
        }
      }
    }
  }

  /** A type no field stores keeps its entry in acc, present or absent. */
  lemma {:induction false} StoreUntouched(acc: map<int, seq<byte>>, fields: seq<Tlv>, fieldType: int)
    requires forall k :: 0 <= k < |fields| ==> !Stores(fields[k], fieldType)
    ensures fieldType in Store(acc, fields) <==> fieldType in acc
    ensures fieldType in acc ==> Store(acc, fields)[fieldType] == acc[fieldType]
    decreases |fields|
  {
    if |fields| > 0 {
      assert !Stores(fields[0], fieldType);
      NoStoreInTail(fields, -1, fieldType);
      StoreUntouched(StoreOne(acc, fields[0]), fields[1..], fieldType);
    }
  }

  /** What no field after index j stores, no field of the tail after j - 1 stores. */
  lemma NoStoreInTail(fields: seq<Tlv>, j: int, fieldType: int)
    requires |fields| > 0 && -1 <= j
    requires forall k :: j < k < |fields| ==> !Stores(fields[k], fieldType)
    ensures forall k :: 0 <= k && j - 1 < k < |fields| - 1 ==> !Stores(fields[1..][k], fieldType)
  {
    forall k | 0 <= k && j - 1 < k < |fields| - 1 ensures !Stores(fields[1..][k], fieldType) {
      assert fields[1..][k] == fields[k + 1];
    }
  }

  /** For a repeated field type the last stored value wins. */
  lemma {:induction false} StoreLastWins(acc: map<int, seq<byte>>, fields: seq<Tlv>, j: int)
    requires 0 <= j < |fields| && fields[j].value.Some?
    requires forall k :: j < k < |fields| ==> !Stores(fields[k], fields[j].fieldType)
    ensures fields[j].fieldType in Store(acc, fields)
    ensures Store(acc, fields)[fields[j].fieldType] == fields[j].value.value
    decreases |fields|
  {
    var acc' := StoreOne(acc, fields[0]);
    assert Store(acc, fields) == Store(acc', fields[1..]);
    NoStoreInTail(fields, j, fields[j].fieldType);
    if j == 0 {
      StoreUntouched(acc', fields[1..], fields[0].fieldType);
    } else {
      assert fields[1..][j - 1] == fields[j];
      StoreLastWins(acc', fields[1..], j - 1);
    }
  }

  /** A type no field stores is absent from what the loop builds from nothing. */
  lemma StoreOnlyRead(fields: seq<Tlv>, fieldType: int)
    requires forall k :: 0 <= k < |fields| ==> !Stores(fields[k], fieldType)
    ensures fieldType !in Store(map[], fields)
  {
    StoreUntouched(map[], fields, fieldType);
  }

  /** The TableMapEventOptionalMetaData constructor: the TLV loop over
      bodyData[startPos..endPos), followed by the getSimplePrimaryKey call the
      constructor makes, which throws for a malformed primary-key field. */
  method ParseOptionalMetaData(bodyData: seq<byte>, startPos: int, endPos: int, order: ByteOrder)
    returns (r: Result<OptionalMetaData>)
    requires 0 <= startPos
    ensures r == OptionalMetaDataOf(bodyData, startPos, endPos, order)
    ensures r.Ok? ==> forall t :: t in r.value.fields ==> |r.value.fields[t]| > 0
  {
    var fields :- ReadTlvFields(bodyData, startPos, endPos, order);
    var meta := OptionalMetaData(fields, order);
    var _ :- GetSimplePrimaryKey(meta);
    r := Ok(meta);
  }

  /** What the constructor yields, or the exception it throws. */
  function OptionalMetaDataOf(bodyData: seq<byte>, startPos: int, endPos: int, order: ByteOrder): Result<OptionalMetaData>
    requires 0 <= startPos
  {
    match TlvFields(bodyData, startPos, endPos, order, map[])
    case Err(e) => Err(e)
    case Ok(fields) =>
      match PackedIntegers(FieldOrEmpty(fields, SimplePrimaryKey), 0, order, [])
      case Err(e) => Err(e)
      case Ok(_) => Ok(OptionalMetaData(fields, order))
  }

  /** The TLV loop of the constructor. */
  method ReadTlvFields(bodyData: seq<byte>, startPos: int, endPos: int, order: ByteOrder)
    returns (r: Result<map<int, seq<byte>>>)
    requires 0 <= startPos
    ensures r == TlvFields(bodyData, startPos, endPos, order, map[])
  {
    var fields: map<int, seq<byte>> := map[];
    var pos := startPos;
    while endPos - pos > 1
      invariant 0 <= pos
      invariant TlvFields(bodyData, startPos, endPos, order, map[]) == TlvFields(bodyData, pos, endPos, order, fields)
      decreases endPos - pos
    {
      var field :- TlvField(bodyData, pos, order);
      pos := field.next;
      if field.value.Some? {
        fields := fields[field.fieldType := field.value.value];
      }
    }
    r := Ok(fields);
  }

  /** A field's bytes, or none when it is absent. */
  function FieldOrEmpty(fields: map<int, seq<byte>>, fieldType: int): seq<byte> {
    if fieldType in fields then fields[fieldType] else []
  }

  // ------------------------------------------------------------ column names and primary key

  /** The packed strings of raw[pos..] after the names read so far, read
      while more than one byte remains. */
  function PackedStrings(raw: seq<byte>, pos: int, order: ByteOrder, done: seq<seq<byte>>): (r: Result<seq<seq<byte>>>)
    requires 0 <= pos
    decreases |raw| - pos, 1
  {
    if |raw| - pos <= 1 then Ok(done)
    else PackedStringsAfter(raw, pos, order, done, GetPackedString(raw, pos, order))
  }

  /** The rest of the column-name loop once the string at pos has been read. */
  function PackedStringsAfter(raw: seq<byte>, pos: int, order: ByteOrder, done: seq<seq<byte>>,
                              next: Result<PackedString>): (r: Result<seq<seq<byte>>>)
    requires 0 <= pos && |raw| - pos > 1 && (next.Ok? ==> next.value.consumed >= 1)
    decreases |raw| - pos, 0
  {
    match next
    case Err(e) => Err(e)
    case Ok(s) => PackedStrings(raw, pos + s.consumed, order, done + [s.data])
  }

  /** One pass of the column-name loop: reading the next string. */
  lemma PackedStringsStep(raw: seq<byte>, pos: int, order: ByteOrder, done: seq<seq<byte>>)
    requires 0 <= pos && |raw| - pos > 1
    ensures PackedStrings(raw, pos, order, done) == PackedStringsAfter(raw, pos, order, done, GetPackedString(raw, pos, order))
  {
  }

  /** getColumnNames: the packed strings of the COLUMN_NAME field, or none. */
  method GetColumnNames(meta: OptionalMetaData) returns (r: Result<seq<seq<byte>>>)
    ensures ColumnName !in meta.fields ==> r == Ok([])
    ensures r == PackedStrings(FieldOrEmpty(meta.fields, ColumnName), 0, meta.order, [])
  {
    var raw := meta.FieldValue(ColumnName);
    if raw.Some? {
      r := ReadPackedStrings(raw.value, meta.order);
    } else {
      r := Ok([]);
    }
  }

  /** The loop of getColumnNames over the field's bytes. */
  method ReadPackedStrings(rawColumnNames: seq<byte>, order: ByteOrder) returns (r: Result<seq<seq<byte>>>)
    ensures r == PackedStrings(rawColumnNames, 0, order, [])
  {
    var columnNames: seq<seq<byte>> := [];
    var pos := 0;
    while |rawColumnNames| - pos > 1
      invariant 0 <= pos
      invariant PackedStrings(rawColumnNames, 0, order, []) == PackedStrings(rawColumnNames, pos, order, columnNames)
      decreases |rawColumnNames| - pos
    {
      var next :- ReadPackedString(rawColumnNames, pos, order, columnNames);
      pos, columnNames := next.0, next.1;
    }
    r := Ok(columnNames);
  }

  /** One pass of the getColumnNames loop: the position after the next packed
      string and the names with it appended. */
  method ReadPackedString(raw: seq<byte>, pos: int, order: ByteOrder, names: seq<seq<byte>>)
    returns (r: Result<(int, seq<seq<byte>>)>)
    requires 0 <= pos && |raw| - pos > 1
    ensures r.Err? ==> PackedStrings(raw, pos, order, names) == Err(r.error)
    ensures r.Ok? ==> r.value.0 > pos && PackedStrings(raw, pos, order, names) == PackedStrings(raw, r.value.0, order, r.value.1)
  {
    PackedStringsStep(raw, pos, order, names);
    var s :- GetPackedString(raw, pos, order);
    r := Ok((pos + s.consumed, names + [s.data]));
  }

  /** The packed integers of raw[pos..] after the numbers read so far, read
      until nothing remains. */
  function PackedIntegers(raw: seq<byte>, pos: int, order: ByteOrder, done: seq<int>): (r: Result<seq<int>>)
    requires 0 <= pos
    decreases |raw| - pos, 1
  {
    if |raw| - pos <= 0 then Ok(done)
    else PackedIntegersAfter(raw, pos, order, done, GetPackedInteger(raw, pos))
  }

  /** The rest of the primary-key loop once the integer at pos has been read. */
  function PackedIntegersAfter(raw: seq<byte>, pos: int, order: ByteOrder, done: seq<int>,
                               next: Result<seq<byte>>): (r: Result<seq<int>>)
    requires 0 <= pos < |raw| && (next.Ok? ==> 1 <= |next.value| <= 8)
    decreases |raw| - pos, 0
  {
    match next
    case Err(e) => Err(e)
    case Ok(rawColNum) =>
      PackedIntegers(raw, pos + |rawColNum|, order, done + [GetUnsignedInteger(rawColNum, order).value])
  }

  /** One pass of the primary-key loop: reading the next integer. */
  lemma PackedIntegersStep(raw: seq<byte>, pos: int, order: ByteOrder, done: seq<int>)
    requires 0 <= pos < |raw|
    ensures PackedIntegers(raw, pos, order, done) == PackedIntegersAfter(raw, pos, order, done, GetPackedInteger(raw, pos))
  {
  }

  /** getSimplePrimaryKey: the packed integers of the SIMPLE_PRIMARY_KEY field, or none. */
  method GetSimplePrimaryKey(meta: OptionalMetaData) returns (r: Result<seq<int>>)
    ensures SimplePrimaryKey !in meta.fields ==> r == Ok([])
    ensures r == PackedIntegers(FieldOrEmpty(meta.fields, SimplePrimaryKey), 0, meta.order, [])
  {
    var raw := meta.FieldValue(SimplePrimaryKey);
    if raw.Some? {
      r := ReadPackedIntegers(raw.value, meta.order);
    } else {
      r := Ok([]);
    }
  }

  /** The loop of getSimplePrimaryKey over the field's bytes. */
  method ReadPackedIntegers(rawCols: seq<byte>, order: ByteOrder) returns (r: Result<seq<int>>)
    ensures r == PackedIntegers(rawCols, 0, order, [])
  {
    var cols: seq<int> := [];
    var pos := 0;
    while |rawCols| - pos > 0
      invariant 0 <= pos
      invariant PackedIntegers(rawCols, 0, order, []) == PackedIntegers(rawCols, pos, order, cols)
      decreases |rawCols| - pos
    {
      PackedIntegersStep(rawCols, pos, order, cols);
      var rawColNum :- GetPackedInteger(rawCols, pos);
      pos := pos + |rawColNum|;
      var colNum := GetUnsignedInteger(rawColNum, order).value;
      cols := cols + [colNum];
    }
    r := Ok(cols);
  }
}
