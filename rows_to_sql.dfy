/** The redo/undo SQL of a rows event: for every row image a pair of
    statements, the one that replays the change and the one that reverts it.
    The optional database reference is a lookup of column names and charsets;
    string decoding and the text of library objects are parameters. */
module RowsSql {
  import opened Wrappers
  import opened Java
  import opened EventTypes
  import opened ColumnDefines
  import opened TableDefines
  import opened RowImages
  import opened TableMaps
  import opened RowsEvents

  /** StatmentPair: the redo and the undo statement of one row change. */
  datatype StatementPair = StatementPair(redo: string, undo: string)

  /** DatabaseReference, seen through the two lookups the builder makes: the
      name and the charset information_schema holds for a column, if any. */
  datatype DatabaseReference = DatabaseReference(names: map<int, string>, charsets: map<int, string>)

  /** The library conversions the builder relies on. */
  datatype Texts = Texts(
    platformText: seq<byte> -> string,         // a name's bytes as a String, in the platform charset
    charsetText: (seq<byte>, string) -> string, // getString(bytes, charset)
    objectText: ColumnValue -> string)         // toString of float, double, BigDecimal and Date values

  /** The table a statement is about, as its TableDefine holds it. */
  datatype TableValue = TableValue(
    schemaName: Option<seq<byte>>, tableName: Option<seq<byte>>, columns: map<int, ColumnDefine>)

  /** What every list of a statement is built from. */
  datatype Scope = Scope(table: TableValue, dbRef: Option<DatabaseReference>, defaultCharset: string, texts: Texts)

  const NotChanged: string := "/* not-changed */"
  const ListSeparator: string := ", "
  const ConditionSeparator: string := " and "

  function TableOf(t: TableDefine): (v: TableValue)
    reads t
    ensures v.schemaName == t.schemaName && v.tableName == t.tableName && v.columns == t.columns
  {
    TableValue(t.schemaName, t.tableName, t.columns)
  }

  /** The state of every image of a rows event, in order. */
  function Images(images: seq<RowImage>): (r: seq<RowImageValue>)
    reads set x | x in images
    ensures |r| == |images|
    ensures forall i :: 0 <= i < |images| ==> r[i] == images[i].Snapshot()
  {
    if images == [] then [] else [images[0].Snapshot()] + Images(images[1..])
  }

  // ------------------------------------------------------------ one column

  /** A name as Java's string concatenation prints it: null prints "null". */
  function NameText(name: Option<seq<byte>>, texts: Texts): string {
    if name.Some? then texts.platformText(name.value) else "null"
  }

  /** schema.table, as the statements name the table. */
  function QualifiedName(s: Scope): string {
    NameText(s.table.schemaName, s.texts) + "." + NameText(s.table.tableName, s.texts)
  }

  /** The name a column is written with: its name in the table map; else the
      reference's name for it; else "@" and its position. Looking up a column
      the table does not define dereferences null. */
  function ColumnName(s: Scope, col: int): Result<string> {
    if col !in s.table.columns then Err(NullPointer)
    else match s.table.columns[col].columnName
      case Some(name) => Ok(s.texts.platformText(name))
      case None =>
        if s.dbRef.Some? && col in s.dbRef.value.names then Ok(s.dbRef.value.names[col])
        else Ok("@" + LongToString(col))
  }

  /** The charset a column's bytes are decoded in when its define names none:
      the reference's charset for it, else the default. */
  function ColumnCharset(s: Scope, col: int): string {
    if s.dbRef.Some? && col in s.dbRef.value.charsets then s.dbRef.value.charsets[col] else s.defaultCharset
  }

  /** toString of a decoded value. */
  function ObjectText(v: ColumnValue, texts: Texts): string {
    match v
    case IntValue(n) => LongToString(n)
    case TextValue(raw, charset) => texts.charsetText(raw, charset)
    case StringValue(text) => text
    case _ => texts.objectText(v)
  }

  /** getSqlValue: null prints as null, a number as its text, anything else
      quoted, with bytes decoded in the column's charset, or the one given.
      A missing image, or a missing define under a non-null value,
      dereferences null. */
  function SqlValue(define: Option<ColumnDefine>, image: Option<ColumnImage>, charset: string, texts: Texts)
    : Result<string>
  {
    if image.None? then Err(NullPointer)
    else match image.value.value
      case None => Ok("null")
      case Some(v) =>
        if define.None? then Err(NullPointer)
        else if IsNumberType(define.value.columnType) then Ok(ObjectText(v, texts))
        else if v.BytesValue? then
          var charset := if define.value.charsetName.Some? then define.value.charsetName.value else charset;
          Ok("'" + texts.charsetText(v.data, charset) + "'")
        else Ok("'" + ObjectText(v, texts) + "'")
  }

  /** The value of column col of an image. */
  function ColumnValueText(s: Scope, image: RowImageValue, col: int): Result<string> {
    var define := if col in s.table.columns then Some(s.table.columns[col]) else None;
    var columnImage := if col in image.columnImages then Some(image.columnImages[col]) else None;
    SqlValue(define, columnImage, ColumnCharset(s, col), s.texts)
  }

  // ------------------------------------------------------------ lists

  /** The kinds of list a statement holds: the column names of an insert, its
      values, and the name=value items of a WHERE or SET. */
  datatype ListKind = Names | Values(image: RowImageValue) | Assignments(image: RowImageValue)

  /** The item a list holds for column col. An assignment looks the name up
      before the value. */
  function ItemAt(kind: ListKind, s: Scope, col: int): Result<string> {
    match kind
    case Names => ColumnName(s, col)
    case Values(image) => ColumnValueText(s, image, col)
    case Assignments(image) =>
      var name :- ColumnName(s, col);
      var value :- ColumnValueText(s, image, col);
      Ok(name + "=" + value)
  }

  /** The items for the columns cols, in order; the first failing item's error. */
  function ItemsAt(kind: ListKind, s: Scope, cols: seq<int>): nat -> Result<string> {
    (i: nat) => if i < |cols| then ItemAt(kind, s, cols[i]) else Err(IndexOutOfBounds)
  }

  /** 0, 1, ..., n - 1. */
  function Range(n: nat): (r: seq<int>)
    ensures |r| == n && forall i :: 0 <= i < n ==> r[i] == i
  {
    seq(n, i => i)
  }

  /** The items joined by sep, with no separator after the last. */
  function Join(items: seq<string>, sep: string): string
    decreases |items|
  {
    if |items| == 0 then ""
    else if |items| == 1 then items[0]
    else Join(items[..|items| - 1], sep) + sep + items[|items| - 1]
  }

  /** Every item followed by sep: the builder before its trailing separator
      is deleted. */
  function Trailing(items: seq<string>, sep: string): string
    decreases |items|
  {
    if items == [] then "" else Trailing(items[..|items| - 1], sep) + items[|items| - 1] + sep
  }

  /** Deleting the trailing separator leaves the join. */
  lemma {:induction false} TrailingJoin(items: seq<string>, sep: string)
    requires items != []
    ensures Trailing(items, sep) == Join(items, sep) + sep
    decreases |items|
  {
    var init := items[..|items| - 1];
    if |init| > 0 {
      TrailingJoin(init, sep);
    } else {
      assert Trailing(init, sep) == "";
    }
  }

  /** The builder of a list of several items runs past its separator. */
  lemma {:induction false} TrailingLonger(items: seq<string>, sep: string)
    requires items != [] && forall i :: 0 <= i < |items| ==> items[i] != []
    ensures |Trailing(items, sep)| > |sep|
    decreases |items|
  {
    var init := items[..|items| - 1];
    assert items[|items| - 1] != [];
  }

  /** A list whose builder deletes the separator unconditionally: with no
      items the deletion starts before the builder and throws. */
  function ListOf(items: Result<seq<string>>, sep: string): Result<string> {
    var list :- items;
    if list == [] then Err(IndexOutOfBounds) else Ok(Join(list, sep))
  }

  /** getInsertColumnList: the names of all columns, ", "-joined. */
  function InsertColumnList(s: Scope): Result<string> {
    ListOf(Collect(ItemsAt(Names, s, Range(|s.table.columns|)), |s.table.columns|), ListSeparator)
  }

  /** getInsertValueList: the values of all columns in the image, ", "-joined. */
  function InsertValueList(s: Scope, image: RowImageValue): Result<string> {
    ListOf(Collect(ItemsAt(Values(image), s, Range(|s.table.columns|)), |s.table.columns|), ListSeparator)
  }

  /** getWhereCondition: name=value for every column, " and "-joined. */
  function WhereCondition(s: Scope, image: RowImageValue): Result<string> {
    ListOf(Collect(ItemsAt(Assignments(image), s, Range(|s.table.columns|)), |s.table.columns|), ConditionSeparator)
  }

  /** getUpdateAssignmentList: name=value for the changed columns, ", "-joined;
      the separator is deleted only when the builder is longer than it. */
  function AssignmentList(s: Scope, image: RowImageValue, changed: seq<int>): (r: Result<string>) {
    var items :- Collect(ItemsAt(Assignments(image), s, changed), |changed|);
    Ok(if items == [] then "" else Join(items, ListSeparator))
  }

  // ------------------------------------------------------------ collecting

  /** f(0), ..., f(n - 1), computed in order: the first failure's error, or all
      the results. */
  function Collect<T>(f: nat -> Result<T>, n: nat): (r: Result<seq<T>>)
    decreases n
  {
    if n == 0 then Ok([])
    else
      var init :- Collect(f, n - 1);
      var last :- f(n - 1);
      Ok(init + [last])
  }

  /** Collecting succeeds exactly when every f(i) does, and then holds them all. */
  lemma {:induction false} CollectOk<T>(f: nat -> Result<T>, n: nat)
    ensures Collect(f, n).Ok? <==> forall i :: 0 <= i < n ==> f(i).Ok?
    ensures Collect(f, n).Ok? ==>
      |Collect(f, n).value| == n && forall i :: 0 <= i < n ==> Collect(f, n).value[i] == f(i).value
    decreases n
  {
    if n > 0 {
      CollectOk(f, n - 1);
    }
  }

  /** One more success extends the collected results by it. */
  lemma CollectStep<T>(f: nat -> Result<T>, i: nat, init: seq<T>, last: T)
    requires Collect(f, i) == Ok(init) && f(i) == Ok(last)
    ensures Collect(f, i + 1) == Ok(init + [last])
  {
  }

  /** A failure at i is the result of collecting any n past i. */
  lemma {:induction false} CollectStops<T>(f: nat -> Result<T>, i: nat, n: nat)
    requires i < n && Collect(f, i).Ok? && f(i).Err?
    ensures Collect(f, n) == Err(f(i).error)
    decreases n
  {
    if n - 1 > i {
      CollectStops(f, i, n - 1);
    }
  }

  /** Collecting two functions that agree below n gives the same. */
  lemma {:induction false} CollectSame<T>(f: nat -> Result<T>, g: nat -> Result<T>, n: nat)
    requires forall i :: 0 <= i < n ==> f(i) == g(i)
    ensures Collect(f, n) == Collect(g, n)
    decreases n
  {
    if n > 0 {
      CollectSame(f, g, n - 1);
    }
  }

  // ------------------------------------------------------------ changed columns

  /** Whether column col differs between the images: byte arrays compare by
      content, and null differs from every value. */
  function ColumnChanged(before: RowImageValue, after: RowImageValue, col: int): (r: Result<bool>)
    ensures r.Ok? <==> col in after.columnImages && col in before.columnImages
    ensures r.Err? ==> r.error == NullPointer
    ensures r.Ok? ==> (r.value <==> after.columnImages[col].value != before.columnImages[col].value)
  {
    if col !in after.columnImages || col !in before.columnImages then Err(NullPointer)
    else Ok(after.columnImages[col].value != before.columnImages[col].value)
  }

  /** getChangedColumns over the first n columns. */
  function ChangedUpTo(before: RowImageValue, after: RowImageValue, n: nat): (r: Result<seq<int>>)
    decreases n
  {
    if n == 0 then Ok([])
    else
      var init :- ChangedUpTo(before, after, n - 1);
      var changed :- ColumnChanged(before, after, n - 1);
      Ok(if changed then init + [n - 1] else init)
  }

  /** getChangedColumns: the columns, up to the after-image's column count,
      whose values differ. */
  function ChangedColumns(before: RowImageValue, after: RowImageValue): Result<seq<int>> {
    ChangedUpTo(before, after, |after.columnImages|)
  }

  /** The changed columns are found exactly when both images hold every
      column below n, and are then exactly the differing columns, ascending. */
  lemma {:induction false} ChangedUpToMeaning(before: RowImageValue, after: RowImageValue, n: nat)
    ensures ChangedUpTo(before, after, n).Ok? <==>
      forall i :: 0 <= i < n ==> i in after.columnImages && i in before.columnImages
    ensures ChangedUpTo(before, after, n).Err? ==> ChangedUpTo(before, after, n).error == NullPointer
    ensures ChangedUpTo(before, after, n).Ok? ==> var r := ChangedUpTo(before, after, n).value;
      && (forall k :: k in r <==> 0 <= k < n && after.columnImages[k].value != before.columnImages[k].value)
      && (forall i, j :: 0 <= i < j < |r| ==> r[i] < r[j])
    decreases n
  {
    if n > 0 {
      ChangedUpToMeaning(before, after, n - 1);
      if ChangedUpTo(before, after, n).Ok? {
        var init := ChangedUpTo(before, after, n - 1).value;
        var changed := ColumnChanged(before, after, n - 1).value;
        var r := ChangedUpTo(before, after, n).value;
        assert r == if changed then init + [n - 1] else init;
        forall i | 0 <= i < |init| ensures init[i] < n - 1 {
          assert init[i] in init;
        }
      }
    }
  }

  /** A failure at column i is the result for any n past i. */
  lemma {:induction false} ChangedStops(before: RowImageValue, after: RowImageValue, i: nat, n: nat)
    requires i < n && ChangedUpTo(before, after, i).Ok? && ColumnChanged(before, after, i).Err?
    ensures ChangedUpTo(before, after, n) == Err(NullPointer)
    decreases n
  {
    if n - 1 > i {
      ChangedStops(before, after, i, n - 1);
    }
  }

  /** Which columns changed does not depend on which image came first, when
      both have as many columns. */
  lemma {:induction false} ChangedSymmetric(before: RowImageValue, after: RowImageValue, n: nat)
    ensures ChangedUpTo(before, after, n) == ChangedUpTo(after, before, n)
    decreases n
  {
    if n > 0 {
      ChangedSymmetric(before, after, n - 1);
    }
  }

  // ------------------------------------------------------------ statements

  /** The insert that puts the image's row back. */
  function InsertStatement(s: Scope, image: RowImageValue): Result<string> {
    var columns :- InsertColumnList(s);
    var values :- InsertValueList(s, image);
    Ok("insert into " + QualifiedName(s) + " (" + columns + ") values (" + values + ")")
  }

  /** The delete that removes the image's row. */
  function DeleteStatement(s: Scope, image: RowImageValue): Result<string> {
    var condition :- WhereCondition(s, image);
    Ok("delete from " + QualifiedName(s) + " where " + condition)
  }

  /** One image of a write: redo inserts it, undo deletes it. */
  function WritePair(s: Scope, image: RowImageValue): Result<StatementPair> {
    var redo :- InsertStatement(s, image);
    var undo :- DeleteStatement(s, image);
    Ok(StatementPair(redo, undo))
  }

  /** One image of a delete: redo deletes it, undo inserts it. */
  function DeletePair(s: Scope, image: RowImageValue): Result<StatementPair> {
    var redo :- DeleteStatement(s, image);
    var undo :- InsertStatement(s, image);
    Ok(StatementPair(redo, undo))
  }

  /** One before/after pair of an update. With nothing changed both statements
      are the not-changed comment. Otherwise undo sets the changed columns to
      their before-values where the row matches the after-image, and redo sets
      the after-values where it matches the before-image. */
  function UpdatePair(s: Scope, before: RowImageValue, after: RowImageValue): Result<StatementPair> {
    var changed :- ChangedColumns(before, after);
    if changed == [] then Ok(StatementPair(NotChanged, NotChanged))
    else UpdateStatementsOf(s, before, after, changed)
  }

  /** The two update statements for the changed columns. */
  function UpdateStatementsOf(s: Scope, before: RowImageValue, after: RowImageValue, changed: seq<int>)
    : (r: Result<StatementPair>)
    ensures r.Ok? ==> "update " <= r.value.redo && "update " <= r.value.undo
  {
    var table := QualifiedName(s) + " set ";
    var undoSet :- AssignmentList(s, before, changed);
    var redoSet :- AssignmentList(s, after, changed);
    var undoWhere :- WhereCondition(s, after);
    var redoWhere :- WhereCondition(s, before);
    Ok(StatementPair("update " + (table + redoSet + " where " + redoWhere),
                     "update " + (table + undoSet + " where " + undoWhere)))
  }

  /** Which of the two forms an update pair takes. */
  lemma UpdatePairCases(s: Scope, before: RowImageValue, after: RowImageValue)
    requires ChangedColumns(before, after).Ok?
    ensures ChangedColumns(before, after).value == [] ==>
      UpdatePair(s, before, after) == Ok(StatementPair(NotChanged, NotChanged))
    ensures ChangedColumns(before, after).value != [] ==>
      UpdatePair(s, before, after) == UpdateStatementsOf(s, before, after, ChangedColumns(before, after).value)
  {
  }

  /** The pair of a write or of a delete image. */
  function PairOf(s: Scope, image: RowImageValue, isWrite: bool): Result<StatementPair> {
    if isWrite then WritePair(s, image) else DeletePair(s, image)
  }

  function WriteAt(s: Scope, images: seq<RowImageValue>): nat -> Result<StatementPair> {
    (i: nat) => if i < |images| then WritePair(s, images[i]) else Err(IndexOutOfBounds)
  }

  function DeleteAt(s: Scope, images: seq<RowImageValue>): nat -> Result<StatementPair> {
    (i: nat) => if i < |images| then DeletePair(s, images[i]) else Err(IndexOutOfBounds)
  }

  /** Update images pair up as (0, 1), (2, 3), ...; the k-th pair. */
  function UpdateOf(s: Scope, images: seq<RowImageValue>, k: nat): Result<StatementPair>
    requires 2 * k + 1 < |images|
  {
    UpdatePair(s, images[2 * k], images[2 * k + 1])
  }

  function UpdateAt(s: Scope, images: seq<RowImageValue>): nat -> Result<StatementPair> {
    (k: nat) => if 2 * k + 1 < |images| then UpdateOf(s, images, k) else Err(IndexOutOfBounds)
  }

  /** getWriteRowsEventStatements: one pair per image. */
  function WriteStatements(s: Scope, images: seq<RowImageValue>): Result<seq<StatementPair>> {
    Collect(WriteAt(s, images), |images|)
  }

  /** getDeleteRowsEventStatments: one pair per image. */
  function DeleteStatements(s: Scope, images: seq<RowImageValue>): Result<seq<StatementPair>> {
    Collect(DeleteAt(s, images), |images|)
  }

  /** getUpdateRowsEventStatments: one pair per before/after pair; a trailing
      unpaired image is ignored. */
  function UpdateStatements(s: Scope, images: seq<RowImageValue>): Result<seq<StatementPair>> {
    Collect(UpdateAt(s, images), |images| / 2)
  }

  predicate IsWriteType(t: EventType) { t == WriteRowsEvent || t == WriteRowsEventV1 }
  predicate IsUpdateType(t: EventType) { t == UpdateRowsEvent || t == UpdateRowsEventV1 }
  predicate IsDeleteType(t: EventType) { t == DeleteRowsEvent || t == DeleteRowsEventV1 }

  /** getRowsEventStatements: the builder of the event's type; no statements
      for any other type. */
  function RowsEventStatements(s: Scope, eventType: EventType, images: seq<RowImageValue>)
    : Result<seq<StatementPair>>
  {
    if IsWriteType(eventType) then WriteStatements(s, images)
    else if IsUpdateType(eventType) then UpdateStatements(s, images)
    else if IsDeleteType(eventType) then DeleteStatements(s, images)
    else Ok([])
  }

  // ------------------------------------------------------------ properties

  /** A column's name: a column the table does not define dereferences null;
      a name the table map carries is used as it is. */
  lemma ColumnNameCases(s: Scope, col: int)
    ensures ColumnName(s, col).Err? <==> col !in s.table.columns
    ensures ColumnName(s, col).Err? ==> ColumnName(s, col).error == NullPointer
    ensures ColumnName(s, col).Ok? && s.table.columns[col].columnName.Some? ==>
      ColumnName(s, col).value == s.texts.platformText(s.table.columns[col].columnName.value)
  {
  }

  /** getSqlValue fails only on a missing image, or a missing define under a
      non-null value; null prints as null, and every non-number is quoted. */
  lemma SqlValueCases(define: Option<ColumnDefine>, image: Option<ColumnImage>, charset: string, texts: Texts)
    ensures var r := SqlValue(define, image, charset, texts);
      && (r.Err? <==> image.None? || (image.value.value.Some? && define.None?))
      && (r.Err? ==> r.error == NullPointer)
      && (r.Ok? && image.value.value.None? ==> r.value == "null")
      && (r.Ok? && image.value.value.Some? && !IsNumberType(define.value.columnType) ==>
           |r.value| >= 2 && r.value[0] == '\'' && r.value[|r.value| - 1] == '\'')
  {
  }

  /** Every assignment item holds its "=". */
  lemma AssignmentHasEquals(image: RowImageValue, s: Scope, col: int)
    requires ItemAt(Assignments(image), s, col).Ok?
    ensures ItemAt(Assignments(image), s, col).value != []
  {
    var name := ColumnName(s, col).value;
    var value := ColumnValueText(s, image, col).value;
    assert (name + "=" + value)[|name|] == '=';
  }

  /** A list whose builder always deletes its separator: the items' error, an
      index error with no items, and otherwise the join. */
  lemma ListOfCases(items: Result<seq<string>>, sep: string)
    ensures items.Err? ==> ListOf(items, sep) == Err(items.error)
    ensures items.Ok? ==> (ListOf(items, sep).Err? <==> items.value == [])
    ensures items.Ok? && ListOf(items, sep).Err? ==> ListOf(items, sep).error == IndexOutOfBounds
    ensures items.Ok? && ListOf(items, sep).Ok? ==> ListOf(items, sep).value == Join(items.value, sep)
  {
  }

  /** A column with no name and no reference is written "@" and its position. */
  lemma PositionalName(s: Scope, col: nat)
    requires col in s.table.columns && s.table.columns[col].columnName.None?
    requires s.dbRef.None? || col !in s.dbRef.value.names
    ensures ColumnName(s, col).Ok?
    ensures var name := ColumnName(s, col).value;
      name[0] == '@' && DigitsValue(name[1..]) == col
  {
    var name := ColumnName(s, col).value;
    assert name[1..] == NatToString(col);
    NatToStringValue(col);
  }

  /** The list of a table whose columns are 0, ..., n - 1: the name list
      fails only on a table without columns, and then with an index error. */
  lemma NamesOk(s: Scope)
    requires forall i :: 0 <= i < |s.table.columns| ==> i in s.table.columns
    ensures InsertColumnList(s).Err? <==> |s.table.columns| == 0
    ensures InsertColumnList(s).Err? ==> InsertColumnList(s).error == IndexOutOfBounds
  {
    var n := |s.table.columns|;
    CollectOk(ItemsAt(Names, s, Range(n)), n);
  }

  /** A write gives one pair per image, and fails exactly when one image does. */
  lemma WriteCount(s: Scope, images: seq<RowImageValue>)
    ensures WriteStatements(s, images).Ok? <==> forall i :: 0 <= i < |images| ==> WritePair(s, images[i]).Ok?
    ensures WriteStatements(s, images).Ok? ==> var r := WriteStatements(s, images).value;
      |r| == |images| && forall i :: 0 <= i < |images| ==> r[i] == WritePair(s, images[i]).value
  {
    var f := WriteAt(s, images);
    forall i | 0 <= i < |images| ensures f(i) == WritePair(s, images[i]) {}
    CollectOk(f, |images|);
  }

  /** An update gives one pair per two images, the k-th from images 2k and 2k+1. */
  lemma UpdateCount(s: Scope, images: seq<RowImageValue>)
    ensures UpdateStatements(s, images).Ok? <==>
      forall k :: 0 <= k < |images| / 2 ==> UpdatePair(s, images[2 * k], images[2 * k + 1]).Ok?
    ensures UpdateStatements(s, images).Ok? ==> var r := UpdateStatements(s, images).value;
      && |r| == |images| / 2
      && forall k :: 0 <= k < |images| / 2 ==> r[k] == UpdatePair(s, images[2 * k], images[2 * k + 1]).value
  {
    var f := UpdateAt(s, images);
    forall k | 0 <= k < |images| / 2 ensures f(k) == UpdatePair(s, images[2 * k], images[2 * k + 1]) {}
    CollectOk(f, |images| / 2);
  }

  /** The statements of a delete are those of a write of the same images with
      redo and undo exchanged: they succeed together, and mirror each other. */
  lemma DeleteMirrorsWrite(s: Scope, images: seq<RowImageValue>)
    ensures DeleteStatements(s, images).Ok? <==> WriteStatements(s, images).Ok?
    ensures DeleteStatements(s, images).Ok? ==>
      var d := DeleteStatements(s, images).value;
      var w := WriteStatements(s, images).value;
      |d| == |w| && forall i :: 0 <= i < |d| ==> d[i].redo == w[i].undo && d[i].undo == w[i].redo
  {
    var f, g := WriteAt(s, images), DeleteAt(s, images);
    forall i | 0 <= i < |images|
      ensures f(i) == WritePair(s, images[i]) && g(i) == DeletePair(s, images[i])
      ensures g(i).Ok? <==> f(i).Ok?
      ensures g(i).Ok? ==> g(i).value.redo == f(i).value.undo && g(i).value.undo == f(i).value.redo
    {}
    CollectOk(f, |images|);
    CollectOk(g, |images|);
  }

  /** An update pair is the not-changed comment exactly when the images agree
      on every column they are compared on. */
  lemma NotChangedExactly(s: Scope, before: RowImageValue, after: RowImageValue)
    requires UpdatePair(s, before, after).Ok?
    ensures var p := UpdatePair(s, before, after).value;
      p.redo == NotChanged <==> forall k :: 0 <= k < |after.columnImages| ==> ColumnChanged(before, after, k) == Ok(false)
    ensures var p := UpdatePair(s, before, after).value;
      p.redo == NotChanged <==> p.undo == NotChanged
  {
    var n := |after.columnImages|;
    ChangedUpToMeaning(before, after, n);
    var changed := ChangedColumns(before, after).value;
    UpdatePairCases(s, before, after);
    if changed != [] {
      assert changed[0] in changed;
      assert ColumnChanged(before, after, changed[0]) == Ok(true);
      assert NotChanged[0] != 'u';
    }
  }

  /** Undo reverts redo: with the images exchanged, redo and undo exchange
      too, when both images have as many columns. */
  lemma UndoRevertsRedo(s: Scope, before: RowImageValue, after: RowImageValue)
    requires |before.columnImages| == |after.columnImages|
    requires UpdatePair(s, before, after).Ok?
    ensures UpdatePair(s, after, before).Ok?
    ensures UpdatePair(s, after, before).value.redo == UpdatePair(s, before, after).value.undo
    ensures UpdatePair(s, after, before).value.undo == UpdatePair(s, before, after).value.redo
  {
    ChangedSymmetric(before, after, |after.columnImages|);
  }

  // ------------------------------------------------------------ the builder

  /** The loop every list builder runs: append each item and the separator.
      The ghost f stands for the items, tied to them one column at a time. */
  method AppendItems(kind: ListKind, s: Scope, cols: seq<int>, sep: string, ghost f: nat -> Result<string>)
    returns (r: Result<string>)
    requires forall i {:trigger ItemAt(kind, s, cols[i])} :: 0 <= i < |cols| ==> f(i) == ItemAt(kind, s, cols[i])
    ensures Collect(f, |cols|).Err? ==> r == Err(Collect(f, |cols|).error)
    ensures Collect(f, |cols|).Ok? ==> r == Ok(Trailing(Collect(f, |cols|).value, sep))
  {
    var builder := "";
    ghost var items: seq<string> := [];
    var i := 0;
    while i < |cols|
      invariant 0 <= i <= |cols|
      invariant |items| == i && Collect(f, i) == Ok(items) && builder == Trailing(items, sep)
    {
      var item := ItemAt(kind, s, cols[i]);
      if item.Err? {
        CollectStops(f, i, |cols|);
        return Err(item.error);
      }
      CollectStep(f, i, items, item.value);
      builder := builder + item.value + sep;
      ghost var prev := items;
      items := items + [item.value];
      assert items[..|items| - 1] == prev;
      i := i + 1;
    }
    r := Ok(builder);
  }

  /** StringBuilder.delete(length - |sep|, length), which throws when the
      builder is shorter than the separator. */
  method DeleteSeparator(builder: string, sep: string) returns (r: Result<string>)
    ensures |builder| < |sep| ==> r == Err(IndexOutOfBounds)
    ensures |builder| >= |sep| ==> r == Ok(builder[..|builder| - |sep|])
  {
    if |builder| < |sep| {
      return Err(IndexOutOfBounds);
    }
    r := Ok(builder[..|builder| - |sep|]);
  }

  /** A list whose builder deletes the separator unconditionally. */
  method BuildList(kind: ListKind, s: Scope, cols: seq<int>, sep: string) returns (r: Result<string>)
    requires sep != []
    ensures r == ListOf(Collect(ItemsAt(kind, s, cols), |cols|), sep)
  {
    var items := Collect(ItemsAt(kind, s, cols), |cols|);
    var builder :- AppendItems(kind, s, cols, sep, ItemsAt(kind, s, cols));
    r := DeleteSeparator(builder, sep);
    if items.value != [] {
      TrailingJoin(items.value, sep);
    }
  }

  method GetInsertColumnList(s: Scope) returns (r: Result<string>)
    ensures r == InsertColumnList(s)
  {
    r := BuildList(Names, s, Range(|s.table.columns|), ListSeparator);
  }

  method GetInsertValueList(s: Scope, image: RowImageValue) returns (r: Result<string>)
    ensures r == InsertValueList(s, image)
  {
    r := BuildList(Values(image), s, Range(|s.table.columns|), ListSeparator);
  }

  method GetWhereCondition(s: Scope, image: RowImageValue) returns (r: Result<string>)
    ensures r == WhereCondition(s, image)
  {
    r := BuildList(Assignments(image), s, Range(|s.table.columns|), ConditionSeparator);
  }

  method GetUpdateAssignmentList(s: Scope, image: RowImageValue, changed: seq<int>) returns (r: Result<string>)
    ensures r == AssignmentList(s, image, changed)
  {
    var items := Collect(ItemsAt(Assignments(image), s, changed), |changed|);
    var builder :- AppendItems(Assignments(image), s, changed, ListSeparator, ItemsAt(Assignments(image), s, changed));
    if |builder| > |ListSeparator| {
      builder := builder[..|builder| - |ListSeparator|];
    }
    r := Ok(builder);
    if items.value != [] {
      CollectOk(ItemsAt(Assignments(image), s, changed), |changed|);
      forall i | 0 <= i < |items.value| ensures items.value[i] != [] {
        AssignmentHasEquals(image, s, changed[i]);
      }
      TrailingLonger(items.value, ListSeparator);
      TrailingJoin(items.value, ListSeparator);
    }
  }

  method GetChangedColumns(before: RowImageValue, after: RowImageValue) returns (r: Result<seq<int>>)
    ensures r == ChangedColumns(before, after)
  {
    var changedColumns: seq<int> := [];
    var n := |after.columnImages|;
    var i := 0;
    while i < n
      invariant 0 <= i <= n
      invariant ChangedUpTo(before, after, i) == Ok(changedColumns)
    {
      if i !in after.columnImages || i !in before.columnImages {
        ChangedStops(before, after, i, n);
        return Err(NullPointer);
      }
      var colAfterValue := after.columnImages[i].value;
      var colBeforeValue := before.columnImages[i].value;
      if colAfterValue != colBeforeValue {
        changedColumns := changedColumns + [i];
      }
      i := i + 1;
    }
    r := Ok(changedColumns);
  }

  method GetInsertStatement(s: Scope, image: RowImageValue) returns (r: Result<string>)
    ensures r == InsertStatement(s, image)
  {
    var columns :- GetInsertColumnList(s);
    var values :- GetInsertValueList(s, image);
    r := Ok("insert into " + QualifiedName(s) + " (" + columns + ") values (" + values + ")");
  }

  method GetDeleteStatement(s: Scope, image: RowImageValue) returns (r: Result<string>)
    ensures r == DeleteStatement(s, image)
  {
    var condition :- GetWhereCondition(s, image);
    r := Ok("delete from " + QualifiedName(s) + " where " + condition);
  }

  /** One write image: redo is the insert, undo the delete. */
  method GetWritePair(s: Scope, image: RowImageValue) returns (r: Result<StatementPair>)
    ensures r == WritePair(s, image)
  {
    var redo :- GetInsertStatement(s, image);
    var undo :- GetDeleteStatement(s, image);
    r := Ok(StatementPair(redo, undo));
  }

  /** One delete image: redo is the delete, undo the insert. */
  method GetDeletePair(s: Scope, image: RowImageValue) returns (r: Result<StatementPair>)
    ensures r == DeletePair(s, image)
  {
    var redo :- GetDeleteStatement(s, image);
    var undo :- GetInsertStatement(s, image);
    r := Ok(StatementPair(redo, undo));
  }

  method GetPairOf(s: Scope, image: RowImageValue, isWrite: bool) returns (r: Result<StatementPair>)
    ensures r == PairOf(s, image, isWrite)
  {
    if isWrite {
      r := GetWritePair(s, image);
    } else {
      r := GetDeletePair(s, image);
    }
  }

  /** The loop of the write and delete builders: one pair per image, from
      step. The ghost f stands for the pairs, tied to them one image at a time. */
  method CollectPairs(s: Scope, images: seq<RowImageValue>, isWrite: bool, ghost f: nat -> Result<StatementPair>)
    returns (r: Result<seq<StatementPair>>)
    requires forall i {:trigger PairOf(s, images[i], isWrite)} :: 0 <= i < |images| ==> f(i) == PairOf(s, images[i], isWrite)
    ensures r == Collect(f, |images|)
  {
    var statementPairs: seq<StatementPair> := [];
    var i := 0;
    while i < |images|
      invariant 0 <= i <= |images|
      invariant Collect(f, i) == Ok(statementPairs)
    {
      var pair := GetPairOf(s, images[i], isWrite);
      if pair.Err? {
        CollectStops(f, i, |images|);
        return Err(pair.error);
      }
      CollectStep(f, i, statementPairs, pair.value);
      statementPairs := statementPairs + [pair.value];
      i := i + 1;
    }
    r := Ok(statementPairs);
  }

  method GetWriteRowsEventStatements(s: Scope, images: seq<RowImageValue>) returns (r: Result<seq<StatementPair>>)
    ensures r == WriteStatements(s, images)
  {
    r := CollectPairs(s, images, true, WriteAt(s, images));
  }

  method GetDeleteRowsEventStatements(s: Scope, images: seq<RowImageValue>) returns (r: Result<seq<StatementPair>>)
    ensures r == DeleteStatements(s, images)
  {
    r := CollectPairs(s, images, false, DeleteAt(s, images));
  }

  method GetUpdatePair(s: Scope, before: RowImageValue, after: RowImageValue) returns (r: Result<StatementPair>)
    ensures r == UpdatePair(s, before, after)
  {
    var changed :- GetChangedColumns(before, after);
    UpdatePairCases(s, before, after);
    if changed == [] {
      return Ok(StatementPair(NotChanged, NotChanged));
    }
    r := GetUpdateStatements(s, before, after, changed);
  }

  /** The two update statements for the changed columns. */
  method GetUpdateStatements(s: Scope, before: RowImageValue, after: RowImageValue, changed: seq<int>)
    returns (r: Result<StatementPair>)
    ensures r == UpdateStatementsOf(s, before, after, changed)
  {
    var table := QualifiedName(s) + " set ";
    var undoSet :- GetUpdateAssignmentList(s, before, changed);
    var redoSet :- GetUpdateAssignmentList(s, after, changed);
    var undoWhere :- GetWhereCondition(s, after);
    var redoWhere :- GetWhereCondition(s, before);
    r := Ok(StatementPair("update " + (table + redoSet + " where " + redoWhere),
                          "update " + (table + undoSet + " where " + undoWhere)));
  }

  /** Integer halving facts the update loop steps by. */
  lemma Halves(i: nat, n: nat)
    requires i < n
    ensures i % 2 == 0 ==> (i + 1) / 2 == i / 2
    ensures i % 2 == 1 ==> 2 * (i / 2) == i - 1 && 2 * (i / 2) + 1 == i && (i + 1) / 2 == i / 2 + 1
    ensures i % 2 == 1 ==> i / 2 < n / 2
  {
  }

  /** The update loop: an even index holds a before-image, the odd index after
      it the after-image of the same row. The ghost f stands for the pairs. */
  method CollectUpdatePairs(s: Scope, images: seq<RowImageValue>, ghost f: nat -> Result<StatementPair>)
    returns (r: Result<seq<StatementPair>>)
    requires forall k {:trigger UpdateOf(s, images, k)} :: 0 <= k < |images| / 2 ==> f(k) == UpdateOf(s, images, k)
    ensures r == Collect(f, |images| / 2)
  {
    var statementPairs: seq<StatementPair> := [];
    var beforeImage: RowImageValue := RowImageValue(0, -1, -1, false, map[]);
    var i := 0;
    while i < |images|
      invariant 0 <= i <= |images|
      invariant Collect(f, i / 2) == Ok(statementPairs)
      invariant i % 2 == 1 ==> beforeImage == images[i - 1]
    {
      Halves(i, |images|);
      if i % 2 == 0 {
        beforeImage := images[i];
      } else {
        var next := UpdateStep(s, images, f, i / 2, beforeImage, images[i], statementPairs);
        if next.Err? {
          return next;
        }
        statementPairs := next.value;
      }
      i := i + 1;
    }
    r := Ok(statementPairs);
  }

  /** One pass of the update loop at an after-image: the pair of row k
      appended, or the failure that ends the whole loop. */
  method UpdateStep(s: Scope, images: seq<RowImageValue>, ghost f: nat -> Result<StatementPair>, ghost k: nat,
                    beforeImage: RowImageValue, afterImage: RowImageValue, statementPairs: seq<StatementPair>)
    returns (next: Result<seq<StatementPair>>)
    requires forall k {:trigger UpdateOf(s, images, k)} :: 0 <= k < |images| / 2 ==> f(k) == UpdateOf(s, images, k)
    requires 2 * k + 1 < |images| && beforeImage == images[2 * k] && afterImage == images[2 * k + 1]
    requires Collect(f, k) == Ok(statementPairs)
    ensures next.Err? ==> next == Collect(f, |images| / 2)
    ensures next.Ok? ==> Collect(f, k + 1) == next
  {
    var pair := GetUpdatePair(s, beforeImage, afterImage);
    assert k < |images| / 2;
    assert pair == UpdateOf(s, images, k) == f(k);
    if pair.Err? {
      CollectStops(f, k, |images| / 2);
      return Err(pair.error);
    }
    CollectStep(f, k, statementPairs, pair.value);
    next := Ok(statementPairs + [pair.value]);
  }

  method GetUpdateRowsEventStatements(s: Scope, images: seq<RowImageValue>) returns (r: Result<seq<StatementPair>>)
    ensures r == UpdateStatements(s, images)
  {
    r := CollectUpdatePairs(s, images, UpdateAt(s, images));
  }

  /** getRowsEventStatements over a decoded table map and rows event; the
      event's type is its header's. */
  method GetRowsEventStatements(tableMap: TableMapEventBody, dbRef: Option<DatabaseReference>,
                                rows: RowsEventBody, eventType: EventType, defaultCharset: string, texts: Texts)
    returns (r: Result<seq<StatementPair>>)
    ensures r == RowsEventStatements(Scope(TableOf(tableMap.tableDefine), dbRef, defaultCharset, texts),
                                     eventType, Images(rows.rowImages))
  {
    var s := Scope(TableOf(tableMap.tableDefine), dbRef, defaultCharset, texts);
    r := GetStatementsOf(s, eventType, Images(rows.rowImages));
  }

  /** The dispatch on the event type over read-out row images. */
  method GetStatementsOf(s: Scope, eventType: EventType, images: seq<RowImageValue>)
    returns (r: Result<seq<StatementPair>>)
    ensures r == RowsEventStatements(s, eventType, images)
  {
    if IsWriteType(eventType) {
      r := GetWriteRowsEventStatements(s, images);
    } else if IsUpdateType(eventType) {
      r := GetUpdateRowsEventStatements(s, images);
    } else if IsDeleteType(eventType) {
      r := GetDeleteRowsEventStatements(s, images);
    } else {
      r := Ok([]);
    }
  }
}
