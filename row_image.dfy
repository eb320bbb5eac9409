/** One row image of a rows event: the decoded value of every column, keyed
    by column id, with the image's byte span in the event body. */
module RowImages {
  import opened Wrappers
  import opened Java
  import opened ParserHelper

  /** A decoded column value: what RowsEventBody stores as a Java object. */
  datatype ColumnValue =
    | IntValue(n: int)                      // Integer or Long
    | FloatValue(bits: seq<byte>)           // float, kept as its 4 bytes
    | DoubleValue(bits: seq<byte>)          // double, kept as its 8 bytes
    | TextValue(raw: seq<byte>, charset: string)  // String decoded from raw in charset
    | BytesValue(data: seq<byte>)           // byte[]
    | DecimalValue(unscaled: int, scale: nat)     // BigDecimal unscaled / 10^scale
    | DateValue(date: DateParts)            // java.util.Date parsed from "y-m-d"
    | InstantValue(millis: int)             // java.util.Date at millis since the epoch
    | Timestamp2Value(seconds: int, fraction: Option<int>)  // local-time text of TIMESTAMP2
    | StringValue(s: string)                // String built from numbers

  /** A column image: the column id and its value, None for SQL NULL. */
  datatype ColumnImage = ColumnImage(columnId: int, value: Option<ColumnValue>) {
    /** isNullValue(). */
    predicate IsNullValue() { value.None? }
  }

  /** The state of a RowImage as a value. */
  datatype RowImageValue = RowImageValue(
    tableId: int, startPos: int, endPos: int, isAllNull: bool, columnImages: map<int, ColumnImage>)

  class RowImage {
    const tableId: int
    var startPos: int
    var endPos: int
    var isAllNull: bool
    var columnImages: map<int, ColumnImage>

    /** A row image with no columns, positions -1 and not all-null. */
    constructor(tableId: int)
      ensures this.tableId == tableId
      ensures startPos == -1 && endPos == -1 && !isAllNull && columnImages == map[]
    {
      this.tableId := tableId;
      startPos := -1;
      endPos := -1;
      isAllNull := false;
      columnImages := map[];
    }

    method SetStartPosition(pos: int)
      modifies this
      ensures startPos == pos
      ensures endPos == old(endPos) && isAllNull == old(isAllNull) && columnImages == old(columnImages)
    {
      startPos := pos;
    }

    method SetEndPosition(pos: int)
      modifies this
      ensures endPos == pos
      ensures startPos == old(startPos) && isAllNull == old(isAllNull) && columnImages == old(columnImages)
    {
      endPos := pos;
    }

    /** isNullImage(b): the setter the getter IsNullImage reads back. */
    method SetNullImage(allNull: bool)
      modifies this
      ensures IsNullImage() == allNull
      ensures startPos == old(startPos) && endPos == old(endPos) && columnImages == old(columnImages)
    {
      isAllNull := allNull;
    }

    predicate IsNullImage()
      reads this
    {
      isAllNull
    }

    /** setColumnImage(c): stores c under its own id. */
    method SetColumnImage(c: ColumnImage)
      modifies this
      ensures columnImages == MapPut(old(columnImages), c.columnId, c)
      ensures startPos == old(startPos) && endPos == old(endPos) && isAllNull == old(isAllNull)
    {
      SetColumnImageAt(c.columnId, c);
    }

    /** setColumnImage(id, c): stores c under the id given, whatever c's own id is. */
    method SetColumnImageAt(columnId: int, c: ColumnImage)
      modifies this
      ensures columnImages == MapPut(old(columnImages), columnId, c)
      ensures startPos == old(startPos) && endPos == old(endPos) && isAllNull == old(isAllNull)
    {
      columnImages := columnImages[columnId := c];
    }

    /** getColumnImage(id): the image stored under id, or null. */
    function GetColumnImage(columnId: int): (r: Option<ColumnImage>)
      reads this
      ensures r.Some? <==> columnId in columnImages
      ensures r.Some? ==> r.value == columnImages[columnId]
    {
      if columnId in columnImages then Some(columnImages[columnId]) else None
    }

    /** Every field of the image, as a value. */
    function Snapshot(): (v: RowImageValue)
      reads this
      ensures v.tableId == tableId && v.startPos == startPos && v.endPos == endPos
      ensures v.isAllNull == isAllNull && v.columnImages == columnImages
    {
      RowImageValue(tableId, startPos, endPos, isAllNull, columnImages)
    }

    /** getColumnCount: the number of distinct ids stored. */
    function ColumnCount(): (r: nat)
      reads this
      ensures r == |columnImages.Keys|
    {
      |columnImages|
    }
  }
}
