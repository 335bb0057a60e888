/**
 * The whole database as a value: the tables the executor holds in memory and the files
 * of the data directory (database/executor.py, database/storage.py). `Execute` is what
 * one parsed statement does to both; the executor class is proved to follow it.
 */
module Database {
  import opened Wrappers
  import opened Types
  import opened Errors
  import opened Grammar
  import opened TableModel

  /** The data directory: `<table>_schema.json` holds the column definitions and
      `<table>_data.pkl` the rows. */
  datatype Store = Store(schemas: map<string, seq<ColumnDef>>, data: map<string, RowMap>)

  /** What a statement returns when it succeeds. */
  datatype QueryResult =
    | Created(table: string)
    | Inserted(rowId: nat)
    | Selected(columns: seq<string>, rows: seq<Row>)
    | Updated(count: nat)
    | Deleted(count: nat)

  datatype Db = Db(tables: map<string, TableState>, store: Store)

  datatype Outcome = Outcome(db: Db, result: Result<QueryResult>)

  /** `save_table_data`: the rows as they are now. */
  function SaveRows(store: Store, name: string, rows: RowMap): Store {
    Store(store.schemas, store.data[name := rows])
  }

  /** `_execute_create_table`: a name already in memory or a bad type raises; otherwise an
      empty table is added and both of its files are written. */
  function ExecuteCreate(db: Db, name: string, defs: seq<ColumnDef>): Outcome {
    if name in db.tables then Outcome(db, Err(TableExists(name)))
    else match ColumnsOf(defs)
      case Err(e) => Outcome(db, Err(e))
      case Ok(cols) =>
        var store := Store(db.store.schemas[name := SchemaRecord(cols, defs)], db.store.data[name := map[]]);
        Outcome(Db(db.tables[name := EmptyTable(cols)], store), Ok(Created(name)))
  }

  /** `_execute_insert`: the rows are saved only when the row was stored. */
  function ExecuteInsert(db: Db, name: string, columns: Option<seq<string>>, values: seq<Value>): Outcome {
    if name !in db.tables then Outcome(db, Err(NoSuchTable(name)))
    else
      var st := InsertSpec(db.tables[name], columns, values);
      var tables := db.tables[name := st.table];
      match st.result
      case Err(e) => Outcome(Db(tables, db.store), Err(e))
      case Ok(id) => Outcome(Db(tables, SaveRows(db.store, name, st.table.rows)), Ok(Inserted(id)))
  }

  /** `_execute_select`: the matched rows in ascending id order, projected, or joined with
      the right table (a join returns the merged rows whatever the projection). */
  function ExecuteSelect(db: Db, name: string, projection: seq<string>, where: Option<seq<Condition>>,
                         join: Option<JoinSpec>): Result<QueryResult>
  {
    if name !in db.tables then Err(NoSuchTable(name))
    else
      var t := db.tables[name];
      var columns := SelectedColumns(t.schema, projection);
      var matched := FilterRows(t, where);
      var ids := AscendingIds(matched, t.nextRowId);
      match join
      case Some(j) =>
        if j.table !in db.tables then Err(NoSuchTable(j.table))
        else
          var right := db.tables[j.table];
          Ok(Selected(columns, NestedJoin(name, matched, ids, j.leftColumn,
                                          j.table, right.rows, AscendingIds(right.rows, right.nextRowId), j.rightColumn)))
      case None =>
        match ProjectRows(matched, ids, columns)
        case Err(e) => Err(e)
        case Ok(rows) => Ok(Selected(columns, rows))
  }

  /** `_execute_update`: rows rewritten before a failure stay rewritten in memory; the rows
      are saved only when the loop finished and changed at least one row. */
  function ExecuteUpdate(db: Db, name: string, assigns: seq<(string, Value)>, where: Option<seq<Condition>>): Outcome {
    if name !in db.tables then Outcome(db, Err(NoSuchTable(name)))
    else
      var st := UpdateSpec(db.tables[name], assigns, where);
      var tables := db.tables[name := st.table];
      match st.result
      case Err(e) => Outcome(Db(tables, db.store), Err(e))
      case Ok(count) =>
        var store := if count > 0 then SaveRows(db.store, name, st.table.rows) else db.store;
        Outcome(Db(tables, store), Ok(Updated(count)))
  }

  /** `_execute_delete`: the rows are saved only when at least one row went. */
  function ExecuteDelete(db: Db, name: string, where: Option<seq<Condition>>): Outcome {
    if name !in db.tables then Outcome(db, Err(NoSuchTable(name)))
    else
      var st := DeleteSpec(db.tables[name], where);
      var count := st.result.value;
      var store := if count > 0 then SaveRows(db.store, name, st.table.rows) else db.store;
      Outcome(Db(db.tables[name := st.table], store), Ok(Deleted(count)))
  }

  /** `QueryExecutor.execute`: dispatch on the statement. */
  function Execute(db: Db, stmt: Statement): Outcome {
    match stmt
    case CreateTable(name, defs) => ExecuteCreate(db, name, defs)
    case Insert(name, columns, values) => ExecuteInsert(db, name, columns, values)
    case Select(name, projection, where, join) => Outcome(db, ExecuteSelect(db, name, projection, where, join))
    case Update(name, assigns, where) => ExecuteUpdate(db, name, assigns, where)
    case Delete(name, where) => ExecuteDelete(db, name, where)
  }

  // ---------------------------------------------------------------------------
  // Loading and the database invariant
  // ---------------------------------------------------------------------------

  /** The data directory as the executor writes it: the stored schemas name valid types,
      every schema with columns has a data file beside it (CREATE TABLE writes both), and
      the stored rows of each table are what a well-formed table of that schema holds. */
  ghost predicate StoreWellFormed(store: Store) {
    forall n | n in store.schemas ::
      && ColumnsOf(store.schemas[n]).Ok?
      && (|store.schemas[n]| > 0 ==> n in store.data)
      && (n in store.data ==> WellFormed(LoadedTable(ColumnsOf(store.schemas[n]).value, store.data[n])))
  }

  /** The stored rows of a table, none when the data file is missing; in a well-formed
      data directory that happens only for a schema without columns, which loading skips. */
  function StoredRows(store: Store, n: string): RowMap {
    if n in store.data then store.data[n] else map[]
  }

  /** `_load_existing_tables`: every table with a non-empty schema file, rebuilt from its
      files. An empty schema list is skipped, so a table without columns does not survive
      a restart. */
  ghost function LoadTables(store: Store): map<string, TableState>
    requires StoreWellFormed(store)
  {
    map n | n in store.schemas && |store.schemas[n]| > 0 ::
      LoadedTable(ColumnsOf(store.schemas[n]).value, StoredRows(store, n))
  }

  /** One table as `_load_table` rebuilds it from a well-formed data directory is
      well-formed. */
  lemma StoredTableWellFormed(store: Store, n: string)
    requires StoreWellFormed(store) && n in store.schemas
    ensures ColumnsOf(store.schemas[n]).Ok?
    ensures WellFormed(LoadedTable(ColumnsOf(store.schemas[n]).value, StoredRows(store, n)))
  {
    if n !in store.data {
      assert WellFormed(LoadedTable(ColumnsOf(store.schemas[n]).value, map[]));
    }
  }

  /** The tables loading gives for the schema files named in `names`. */
  ghost function LoadedFrom(store: Store, names: set<string>): map<string, TableState>
    requires StoreWellFormed(store)
  {
    map n | n in names && n in store.schemas && |store.schemas[n]| > 0 ::
      LoadedTable(ColumnsOf(store.schemas[n]).value, StoredRows(store, n))
  }

  /** Loading one more schema file adds its table unless the schema is empty; all of
      them give what loading gives. */
  lemma LoadedFromStep(store: Store, names: set<string>, n: string)
    requires StoreWellFormed(store) && n in store.schemas
    ensures LoadedFrom(store, names + {n}) ==
            if |store.schemas[n]| > 0
            then LoadedFrom(store, names)[n := LoadedTable(ColumnsOf(store.schemas[n]).value, StoredRows(store, n))]
            else LoadedFrom(store, names)
  {
  }

  /** Loading every schema file is loading the data directory. */
  lemma LoadedFromAll(store: Store)
    requires StoreWellFormed(store)
    ensures LoadedFrom(store, store.schemas.Keys) == LoadTables(store)
  {
  }

  /** Every table in memory is well-formed and has a schema file describing its schema. */
  ghost predicate Consistent(db: Db) {
    && StoreWellFormed(db.store)
    && forall n | n in db.tables ::
         && WellFormed(db.tables[n])
         && n in db.store.schemas
         && ColumnsOf(db.store.schemas[n]) == Ok(db.tables[n].schema)
  }

  /** Loading a well-formed data directory gives a consistent database. */
  lemma LoadIsConsistent(store: Store)
    requires StoreWellFormed(store)
    ensures Consistent(Db(LoadTables(store), store))
  {
  }

  /** Saving the rows of a well-formed table keeps the data directory well-formed. */
  lemma SaveKeepsStoreWellFormed(db: Db, name: string, t: TableState)
    requires Consistent(db) && name in db.tables
    requires WellFormed(t) && t.schema == db.tables[name].schema
    ensures StoreWellFormed(SaveRows(db.store, name, t.rows))
  {
    ReloadKeepsRows(t);
  }

  /** Replacing a table by a well-formed one of the same schema, with the schema files
      untouched, keeps the database consistent. */
  lemma ReplaceTableKeepsConsistency(db: Db, name: string, t: TableState, store: Store)
    requires Consistent(db) && name in db.tables
    requires WellFormed(t) && t.schema == db.tables[name].schema
    requires StoreWellFormed(store) && store.schemas == db.store.schemas
    ensures Consistent(Db(db.tables[name := t], store))
  {
  }

  lemma CreatePreservesConsistency(db: Db, name: string, defs: seq<ColumnDef>)
    requires Consistent(db)
    ensures Consistent(ExecuteCreate(db, name, defs).db)
  {
    if name !in db.tables && ColumnsOf(defs).Ok? {
      SchemaRecordRoundTrip(defs);
      assert WellFormed(LoadedTable(ColumnsOf(defs).value, map[]));
    }
  }

  lemma InsertPreservesConsistency(db: Db, name: string, columns: Option<seq<string>>, values: seq<Value>)
    requires Consistent(db)
    ensures Consistent(ExecuteInsert(db, name, columns, values).db)
  {
    if name in db.tables {
      var t := db.tables[name];
      var st := InsertSpec(t, columns, values);
      InsertPreservesWellFormed(t, columns, values);
      if st.result.Ok? {
        SaveKeepsStoreWellFormed(db, name, st.table);
        ReplaceTableKeepsConsistency(db, name, st.table, SaveRows(db.store, name, st.table.rows));
      } else {
        ReplaceTableKeepsConsistency(db, name, st.table, db.store);
      }
    }
  }

  lemma UpdatePreservesConsistency(db: Db, name: string, assigns: seq<(string, Value)>, where: Option<seq<Condition>>)
    requires Consistent(db)
    ensures Consistent(ExecuteUpdate(db, name, assigns, where).db)
  {
    if name in db.tables {
      var t := db.tables[name];
      var st := UpdateSpec(t, assigns, where);
      UpdateLoopOutcome(t, AscendingIds(FilterRows(t, where), t.nextRowId), assigns, 0);
      if st.result.Ok? && st.result.value > 0 {
        SaveKeepsStoreWellFormed(db, name, st.table);
        ReplaceTableKeepsConsistency(db, name, st.table, SaveRows(db.store, name, st.table.rows));
      } else {
        ReplaceTableKeepsConsistency(db, name, st.table, db.store);
      }
    }
  }

  lemma DeletePreservesConsistency(db: Db, name: string, where: Option<seq<Condition>>)
    requires Consistent(db)
    ensures Consistent(ExecuteDelete(db, name, where).db)
  {
    if name in db.tables {
      var t := db.tables[name];
      var st := DeleteSpec(t, where);
      DeletePreservesWellFormed(t, where);
      if st.result.value > 0 {
        SaveKeepsStoreWellFormed(db, name, st.table);
        ReplaceTableKeepsConsistency(db, name, st.table, SaveRows(db.store, name, st.table.rows));
      } else {
        ReplaceTableKeepsConsistency(db, name, st.table, db.store);
      }
    }
  }

  /** INSERT on a consistent database, given the step the table takes: the table is
      replaced by its new value, the rows are saved when the row went in, and the
      database stays consistent. */
  lemma InsertCommits(db: Db, name: string, columns: Option<seq<string>>, values: seq<Value>, t: TableState, id: Result<nat>)
    requires Consistent(db) && name in db.tables
    requires Step(t, id) == InsertSpec(db.tables[name], columns, values)
    ensures var after := Db(db.tables[name := t], if id.Ok? then SaveRows(db.store, name, t.rows) else db.store);
      && ExecuteInsert(db, name, columns, values) == Outcome(after, if id.Ok? then Ok(Inserted(id.value)) else Err(id.error))
      && Consistent(after)
  {
    InsertPreservesConsistency(db, name, columns, values);
  }

  /** UPDATE as the executor commits it: the table is replaced by its new value whether or
      not a row failed, the rows are saved when at least one row was rewritten and none
      failed, and the database stays consistent. */
  lemma UpdateCommits(db: Db, name: string, assigns: seq<(string, Value)>, where: Option<seq<Condition>>, t: TableState, r: Result<nat>)
    requires Consistent(db) && name in db.tables
    requires Step(t, r) == UpdateSpec(db.tables[name], assigns, where)
    ensures var after := Db(db.tables[name := t], if r.Ok? && r.value > 0 then SaveRows(db.store, name, t.rows) else db.store);
      && ExecuteUpdate(db, name, assigns, where) == Outcome(after, if r.Ok? then Ok(Updated(r.value)) else Err(r.error))
      && Consistent(after)
  {
    UpdatePreservesConsistency(db, name, assigns, where);
  }

  /** DELETE as the executor commits it: the table is replaced by its new value, the rows
      are saved when at least one row went, and the database stays consistent. */
  lemma DeleteCommits(db: Db, name: string, where: Option<seq<Condition>>, t: TableState, count: nat)
    requires Consistent(db) && name in db.tables
    requires Step(t, Ok(count)) == DeleteSpec(db.tables[name], where)
    ensures var after := Db(db.tables[name := t], if count > 0 then SaveRows(db.store, name, t.rows) else db.store);
      && ExecuteDelete(db, name, where) == Outcome(after, Ok(Deleted(count)))
      && Consistent(after)
  {
    DeletePreservesConsistency(db, name, where);
  }

  /** Every statement keeps the database consistent, whether it succeeds or fails. */
  lemma ExecutePreservesConsistency(db: Db, stmt: Statement)
    requires Consistent(db)
    ensures Consistent(Execute(db, stmt).db)
  {
    match stmt
    case CreateTable(name, defs) => CreatePreservesConsistency(db, name, defs);
    case Insert(name, columns, values) => InsertPreservesConsistency(db, name, columns, values);
    case Select(_, _, _, _) =>
    case Update(name, assigns, where) => UpdatePreservesConsistency(db, name, assigns, where);
    case Delete(name, where) => DeletePreservesConsistency(db, name, where);
  }

  /** A failing statement never writes a file, and only UPDATE changes memory on failure. */
  lemma FailuresLeaveFilesAlone(db: Db, stmt: Statement)
    requires Consistent(db)
    requires Execute(db, stmt).result.Err?
    ensures Execute(db, stmt).db.store == db.store
    ensures !stmt.Update? ==> Execute(db, stmt).db == db
  {
    if stmt.Insert? && stmt.table in db.tables {
      InsertOutcome(db.tables[stmt.table], stmt.columns, stmt.values);
      assert db.tables[stmt.table := db.tables[stmt.table]] == db.tables;
    }
  }

  /** SELECT changes neither memory nor files. */
  lemma SelectIsReadOnly(db: Db, name: string, projection: seq<string>, where: Option<seq<Condition>>, join: Option<JoinSpec>)
    ensures Execute(db, Select(name, projection, where, join)).db == db
  {
  }

  /** After a successful INSERT the new row is on disk: a restart loads the table with the
      rows in memory. */
  lemma InsertSurvivesRestart(db: Db, name: string, columns: Option<seq<string>>, values: seq<Value>)
    requires Consistent(db)
    requires ExecuteInsert(db, name, columns, values).result.Ok?
    requires |db.store.schemas[name]| > 0
    ensures var after := ExecuteInsert(db, name, columns, values).db;
      && StoreWellFormed(after.store)
      && name in LoadTables(after.store)
      && LoadTables(after.store)[name].rows == after.tables[name].rows
      && LoadTables(after.store)[name].schema == after.tables[name].schema
  {
    InsertPreservesConsistency(db, name, columns, values);
  }

  /** CREATE TABLE followed by a restart brings the table back empty, with the same schema,
      unless it has no columns. */
  lemma CreateSurvivesRestart(db: Db, name: string, defs: seq<ColumnDef>)
    requires Consistent(db)
    requires ExecuteCreate(db, name, defs).result.Ok?
    ensures var after := ExecuteCreate(db, name, defs).db;
      && StoreWellFormed(after.store)
      && (|defs| > 0 <==> name in LoadTables(after.store))
      && (|defs| > 0 ==> LoadTables(after.store)[name] == after.tables[name])
  {
    CreatePreservesConsistency(db, name, defs);
    var after := ExecuteCreate(db, name, defs).db;
    var cols := ColumnsOf(defs).value;
    SchemaRecordRoundTrip(defs);
    assert after.store.schemas[name] == defs;
    assert StoredRows(after.store, name) == map[];
    if |defs| > 0 {
      EmptyTableLoaded(cols);
      assert LoadTables(after.store)[name] == LoadedTable(cols, map[]);
    }
  }
}
