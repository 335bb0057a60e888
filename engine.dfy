/**
 * `DatabaseEngine`: the front door. A query text is parsed and the statement handed to
 * the executor; the engine also lists the stored tables and describes a table in memory.
 */
module Engine {
  import opened Wrappers
  import opened Types
  import opened Errors
  import opened Grammar
  import opened TableModel
  import opened Database
  import Parser
  import opened Executor

  /** `execute` on values: text that does not parse fails with the parser's error, text
      that parses runs as its statement. */
  function Run(db: Db, text: string): Outcome {
    match Parsed(text)
    case Err(e) => Outcome(db, Err(e))
    case Ok(stmt) => Database.Execute(db, stmt)
  }

  /** Text the parser rejects changes nothing, in memory or on disk. */
  lemma ParseErrorChangesNothing(db: Db, text: string)
    requires Parsed(text).Err?
    ensures Run(db, text) == Outcome(db, Err(Parsed(text).error))
  {
  }

  /** Whatever the text, the database stays consistent. */
  lemma RunPreservesConsistency(db: Db, text: string)
    requires Consistent(db)
    ensures Consistent(Run(db, text).db)
  {
    if Parsed(text).Ok? {
      ExecutePreservesConsistency(db, Parsed(text).value);
    }
  }

  /** One entry of the `schema` list `get_table_info` returns. */
  datatype ColumnInfo = ColumnInfo(name: string, typeName: string, isPrimary: bool, isUnique: bool)

  /** What `get_table_info` returns: the columns in order and the number of rows. */
  datatype TableInfo = TableInfo(schema: seq<ColumnInfo>, rowCount: nat)

  function Describe(c: Column): ColumnInfo {
    ColumnInfo(c.name, TypeName(c.dtype), c.isPrimary, c.isUnique)
  }

  function InfoOf(t: TableState): TableInfo {
    TableInfo(seq(|t.schema|, i requires 0 <= i < |t.schema| => Describe(t.schema[i])), |t.rows|)
  }

  /** `get_table_info` on values. An unknown table fails; otherwise there is one entry per
      column, in schema order, whose type name reads back as the column's type, and the row
      count is the number of rows held. */
  function TableInfoOf(db: Db, name: string): (r: Result<TableInfo>)
    ensures r.Err? <==> name !in db.tables
    ensures r.Err? ==> r.error == NoSuchTable(name)
    ensures r.Ok? ==>
      var t := db.tables[name];
      && |r.value.schema| == |t.schema|
      && r.value.rowCount == |t.rows|
      && forall i | 0 <= i < |t.schema| ::
           && r.value.schema[i].name == t.schema[i].name
           && ParseDataType(r.value.schema[i].typeName) == Some(t.schema[i].dtype)
           && r.value.schema[i].isPrimary == t.schema[i].isPrimary
           && r.value.schema[i].isUnique == t.schema[i].isUnique
  {
    if name !in db.tables then Err(NoSuchTable(name))
    else
      var t := db.tables[name];
      forall i | 0 <= i < |t.schema| ensures ParseDataType(TypeName(t.schema[i].dtype)) == Some(t.schema[i].dtype) {
        TypeNameRoundTrip(t.schema[i].dtype);
      }
      Ok(InfoOf(t))
  }

  /** Describing a table does not depend on the files, only on the tables in memory. */
  lemma TableInfoIgnoresStore(tables: map<string, TableState>, s1: Store, s2: Store, name: string)
    ensures TableInfoOf(Db(tables, s1), name) == TableInfoOf(Db(tables, s2), name)
  {
  }

  /** A statement changes the description of no table but the one it names. */
  lemma StatementKeepsOtherInfo(db: Db, stmt: Statement, other: string)
    requires other != stmt.table
    ensures TableInfoOf(Database.Execute(db, stmt).db, other) == TableInfoOf(db, other)
  {
  }

  /** `list_tables`: one name per schema file in the data directory. */
  function ListedTables(s: Store): (names: set<string>)
    ensures forall n :: n in names <==> n in s.schemas
  {
    s.schemas.Keys
  }

  /** Every table in memory of a consistent database is listed. */
  lemma TablesInMemoryAreListed(db: Db)
    requires Consistent(db)
    ensures db.tables.Keys <= ListedTables(db.store)
  {
  }

  /** `DatabaseEngine`: a parser and an executor over one data directory. */
  class DatabaseEngine {
    const executor: QueryExecutor

    ghost predicate Valid()
      reads this, executor, executor.Repr
    {
      executor.Valid()
    }

    /** `__init__`: the executor loads every table stored in the data directory. */
    constructor (s: Store)
      requires StoreWellFormed(s)
      ensures Valid() && executor.Snapshot() == Db(LoadTables(s), s)
      ensures fresh(executor) && fresh(executor.Repr)
    {
      executor := new QueryExecutor(s);
    }

    /** `execute`: parse the text, then run the statement. */
    method Execute(query: string) returns (r: Result<QueryResult>)
      requires Valid()
      modifies executor, executor.Repr
      ensures Valid() && fresh(executor.Repr - old(executor.Repr))
      ensures Outcome(executor.Snapshot(), r) == Run(old(executor.Snapshot()), query)
    {
      var parsed := Parser.Parse(query);
      if parsed.Err? {
        return Err(parsed.error);
      }
      r := executor.Execute(parsed.value);
    }

    /** `list_tables`. */
    method ListTables() returns (names: set<string>)
      ensures names == ListedTables(executor.store)
    {
      names := executor.store.schemas.Keys;
    }

    /** `get_table_info`. */
    method GetTableInfo(name: string) returns (r: Result<TableInfo>)
      requires Valid()
      ensures r == TableInfoOf(executor.Snapshot(), name)
    {
      if name !in executor.tables {
        return Err(NoSuchTable(name));
      }
      var t := executor.tables[name];
      assert t.Model() == executor.model[name];
      r := Ok(InfoOf(t.Model()));
    }
  }
}
