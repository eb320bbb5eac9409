/** The definition of one table as a table map describes it: its id, schema
    and table name, and its columns keyed by column id. Names are kept as
    the bytes the binlog holds. */
module TableDefines {
  import opened Wrappers
  import opened Java
  import opened ColumnDefines

  class TableDefine {
    const tableId: int
    var schemaName: Option<seq<byte>>
    var tableName: Option<seq<byte>>
    var columns: map<int, ColumnDefine>

    /** A table with no names and no columns yet. */
    constructor(tableId: int)
      ensures this.tableId == tableId
      ensures schemaName == None && tableName == None && columns == map[]
    {
      this.tableId := tableId;
      schemaName := None;
      tableName := None;
      columns := map[];
    }

    method SetSchemaName(name: seq<byte>)
      modifies this
      ensures schemaName == Some(name)
      ensures tableName == old(tableName) && columns == old(columns)
    {
      schemaName := Some(name);
    }

    method SetTableName(name: seq<byte>)
      modifies this
      ensures tableName == Some(name)
      ensures schemaName == old(schemaName) && columns == old(columns)
    {
      tableName := Some(name);
    }

    /** setColumnDefine: stores the define under its own id, replacing any
        define stored there before. */
    method SetColumnDefine(c: ColumnDefine)
      modifies this
      ensures columns == MapPut(old(columns), c.columnId, c)
      ensures schemaName == old(schemaName) && tableName == old(tableName)
    {
      columns := columns[c.columnId := c];
    }

    /** A setter called on the define stored under key: the map holds a
        reference to the mutable define, so that entry alone changes, and
        under the same key whatever the define's own id. */
    method UpdateColumnDefine(key: int, c: ColumnDefine)
      requires key in columns
      modifies this
      ensures columns == old(columns)[key := c] && columns.Keys == old(columns.Keys)
      ensures schemaName == old(schemaName) && tableName == old(tableName)
    {
      columns := columns[key := c];
    }

    /** getColumnDefine: the define stored under the id, or null. */
    function GetColumnDefine(columnId: int): (r: Option<ColumnDefine>)
      reads this
      ensures r.Some? <==> columnId in columns
      ensures r.Some? ==> r.value == columns[columnId] && r.value in columns.Values
    {
      if columnId in columns then Some(columns[columnId]) else None
    }

    /** getColumnCount: the number of distinct ids stored. */
    function ColumnCount(): (r: nat)
      reads this
      ensures r == |columns.Keys|
    {
      |columns|
    }

    /** setColumnName(index, name): renames the define stored under index. For
        an index with no define, a fresh define (whose id is the default 0) is
        stored first, so the name lands under id 0, not under index. */
    method SetColumnName(index: int, name: seq<byte>)
      modifies this
      ensures columns == Renamed(old(columns), index, name)
      ensures schemaName == old(schemaName) && tableName == old(tableName)
    {
      var colDef: ColumnDefine;
      var key := index;
      if index in columns {
        colDef := columns[index];
      } else {
        colDef := NewColumnDefine;
        SetColumnDefine(colDef);
        key := colDef.columnId;
      }
      ghost var before := columns;
      columns := columns[key := colDef.(columnName := Some(name))];
      RenamedPuts(old(columns), before, index, name, key, colDef);
    }

    /** getCoumnName(index): the name of the define stored under index; with
        no define there the lookup dereferences null. */
    function GetColumnName(index: int): (r: Result<Option<seq<byte>>>)
      reads this
      ensures r.Ok? <==> index in columns
      ensures r.Err? ==> r.error == NullPointer
      ensures r.Ok? ==> r.value == columns[index].columnName
    {
      if index in columns then Ok(columns[index].columnName) else Err(NullPointer)
    }
  }

  /** The two branches of setColumnName store the renamed define as Renamed says. */
  lemma RenamedPuts(m: map<int, ColumnDefine>, before: map<int, ColumnDefine>, index: int, name: seq<byte>,
                    key: int, colDef: ColumnDefine)
    requires index in m ==> before == m && key == index && colDef == m[index]
    requires index !in m ==> before == MapPut(m, 0, NewColumnDefine) && key == 0 && colDef == NewColumnDefine
    ensures before[key := colDef.(columnName := Some(name))] == Renamed(m, index, name)
  {
  }

  /** The columns after setColumnName(index, name). An existing column changes
      only its name. For an absent index a fresh define is stored under id 0,
      replacing whatever id 0 held, and the index itself stays absent unless
      it is 0. */
  function Renamed(m: map<int, ColumnDefine>, index: int, name: seq<byte>): (r: map<int, ColumnDefine>)
    ensures index in m ==> r.Keys == m.Keys && r[index] == m[index].(columnName := Some(name))
    ensures index !in m ==>
      && r.Keys == m.Keys + {0}
      && r[0] == ColumnDefine(0, Some(name), 0, None, false, None)
      && (index != 0 ==> index !in r)
    ensures forall k :: k in m && k != (if index in m then index else 0) ==> r[k] == m[k]
  {
    if index in m then m[index := m[index].(columnName := Some(name))]
    else m[0 := NewColumnDefine.(columnName := Some(name))]
  }
}
