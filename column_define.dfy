/** A column of a table map: its id, name, MySQL type code, type metadata,
    nullability and charset, and the classification of type codes. */
module ColumnDefines {
  import opened Wrappers
  import opened Java
  import opened ParserHelper

  /** A column definition. Java's null name, metadata and charset are None;
      the name is kept as the bytes the binlog holds. */
  datatype ColumnDefine = ColumnDefine(
    columnId: int,
    columnName: Option<seq<byte>>,
    columnType: byte,
    columnMeta: Option<seq<byte>>,
    isNullable: bool,
    charsetName: Option<string>)

  /** `new ColumnDefine()`: every field at its Java default. */
  const NewColumnDefine: ColumnDefine := ColumnDefine(0, None, 0, None, false, None)

  /** isNumberType: DECIMAL, TINY, SHORT, LONG, FLOAT, DOUBLE, LONGLONG, INT24, NEWDECIMAL. */
  predicate IsNumberType(t: byte) {
    t <= 0x05 || t == 0x08 || t == 0x09 || t == 0xf6
  }

  /** isStringType: VARCHAR, VAR_STRING, STRING. */
  predicate IsStringType(t: byte) {
    t == 0x0f || t == 0xfd || t == 0xfe
  }

  /** isDatetimeType: TIMESTAMP, DATE, TIME, DATETIME, YEAR, NEWDATE,
      TIMESTAMP2, DATETIME2, TIME2. */
  predicate IsDatetimeType(t: byte) {
    t == 0x07 || (0x0a <= t <= 0x0e) || (0x11 <= t <= 0x13)
  }

  /** No type code is in two of the three classes. */
  lemma ClassesDisjoint(t: byte)
    ensures !(IsNumberType(t) && IsStringType(t))
    ensures !(IsNumberType(t) && IsDatetimeType(t))
    ensures !(IsStringType(t) && IsDatetimeType(t))
  {
  }

  /** The type codes getColumnTypeString has a name for. */
  predicate IsNamedType(t: byte) {
    t <= 0x13 || t >= 0xf5
  }

  /** getColumnTypeString: the protocol's name for a type code, or "0x" and
      the code's two upper-case hex digits for a code without one. */
  function ColumnTypeString(t: byte): (r: string)
    ensures |r| > 0 && (IsNamedType(t) <==> r[0] != '0')
    ensures !IsNamedType(t) ==> |r| == 4 && r[..2] == "0x" && HexBytes(r[2..]) == [t]
  {
    match t
    case 0x00 => "DECIMAL"
    case 0x01 => "TINY"
    case 0x02 => "SHORT"
    case 0x03 => "LONG"
    case 0x04 => "FLOAT"
    case 0x05 => "DOUBLE"
    case 0x06 => "NULL"
    case 0x07 => "TIMESTAMP"
    case 0x08 => "LONGLONG"
    case 0x09 => "INT24"
    case 0x0a => "DATE"
    case 0x0b => "TIME"
    case 0x0c => "DATETIME"
    case 0x0d => "YEAR"
    case 0x0e => "NEWDATE"
    case 0x0f => "VARCHAR"
    case 0x10 => "BIT"
    case 0x11 => "TIMESTAMP2"
    case 0x12 => "DATETIME2"
    case 0x13 => "TIME2"
    case 0xf5 => "JSON"
    case 0xf6 => "NEWDECIMAL"
    case 0xf7 => "ENUM"
    case 0xf8 => "SET"
    case 0xf9 => "TINY_BLOB"
    case 0xfa => "MEDIUM_BLOB"
    case 0xfb => "LONG_BLOB"
    case 0xfc => "BLOB"
    case 0xfd => "VAR_STRING"
    case 0xfe => "STRING"
    case 0xff => "GEOMETRY"
    case _ =>
      var h := HexOfByte(t, true);
      assert HexText([t]) == h by { assert [t][1..] == []; }
      HexTextRoundTrip([t]);
      var r := "0x" + h;
      assert r[..2] == "0x" && r[2..] == h;
      r
  }
}
