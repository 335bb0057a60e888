/**
 * The query executor (database/executor.py) on mutable state: each table holds its rows,
 * its row-id counter and one `Index` object per primary or unique column, and the
 * executor updates them in place. Every method is proved to do what the value-level
 * definitions of `TableModel` and `Database` say, and every index is proved to hold
 * exactly the buckets its column's values determine.
 */
module Executor {
  import opened Wrappers
  import opened Types
  import opened Errors
  import opened Grammar
  import opened TableModel
  import opened Database
  import opened Indexing

  /** INSERT's zip loop and UPDATE's SET loop: each pair's column must exist and take the
      value, which is then written into the row; the first pair that fails raises. */
  method WriteValues(schema: seq<Column>, row: Row, pairs: seq<(string, Value)>) returns (r: Result<Row>)
    ensures r == Written(schema, row, pairs)
  {
    var current := row;
    for i := 0 to |pairs|
      invariant Written(schema, current, pairs[i..]) == Written(schema, row, pairs)
    {
      assert pairs[i..][1..] == pairs[i + 1..];
      var (name, value) := pairs[i];
      var column := FindColumn(schema, name);
      if column.None? {
        return Err(UnknownColumn(name));
      }
      if !ValidateValue(column.value, value) {
        return Err(TypeMismatch(name, column.value.dtype));
      }
      current := current[name := value];
    }
    assert pairs[|pairs|..] == [];
    r := Ok(current);
  }

  /** INSERT's fill loop: every schema column the row lacks becomes None. */
  method FillNulls(schema: seq<Column>, row: Row) returns (full: Row)
    ensures full == WithNulls(schema, row)
  {
    full := row;
    for j := 0 to |schema|
      invariant full == WithNulls(schema[..j], row)
    {
      var name := schema[j].name;
      WithNullsSnoc(schema, j, row);
      if name !in full {
        full := full[name := Null];
      }
    }
    assert schema[..|schema|] == schema;
  }

  /** `Column(...)` from one definition: `DataType(type)` raises for an unknown type name,
      and the words `PRIMARY KEY` and `UNIQUE` are looked up among the constraints. */
  method MakeColumn(d: ColumnDef) returns (r: Result<Column>)
    ensures r == ColumnOf(d)
  {
    var dtype := ParseDataType(d.typeName);
    if dtype.None? {
      return Err(InvalidDataType(d.typeName));
    }
    r := Ok(Column(d.name, dtype.value, "PRIMARY KEY" in d.constraints,
                   "UNIQUE" in d.constraints || "PRIMARY KEY" in d.constraints));
  }

  /** The column loop of `_execute_create_table` and `_load_table`: each definition becomes
      a column, `DataType(type)` raising for the first unknown type name, and the schema
      record is written alongside. */
  method BuildColumns(defs: seq<ColumnDef>) returns (r: Result<seq<Column>>, record: seq<ColumnDef>)
    ensures r == ColumnsOf(defs)
    ensures r.Ok? ==> |r.value| == |defs| && record == SchemaRecord(r.value, defs)
  {
    var columns: seq<Column> := [];
    record := [];
    assert defs[0..] == defs;
    for i := 0 to |defs|
      invariant |columns| == i && |record| == i
      invariant ColumnsOf(defs) == Prepend(columns, ColumnsOf(defs[i..]))
      invariant record == SchemaRecord(columns, defs[..i])
    {
      ColumnsOfUnroll(defs, i, columns);
      var col := MakeColumn(defs[i]);
      if col.Err? {
        r := Err(col.error);
        return;
      }
      SchemaRecordAppend(columns, defs, i, col.value);
      columns := columns + [col.value];
      record := record + [SchemaEntry(col.value, defs[i])];
    }
    assert defs[|defs|..] == [] && defs[..|defs|] == defs;
    assert columns + [] == columns;
    r := Ok(columns);
  }

  /** The inner loop of SELECT's projection for one row: each selected column is copied,
      and the first one the row lacks raises. */
  method ProjectOne(row: Row, cols: seq<string>) returns (r: Result<Row>)
    ensures r == ProjectRow(row, cols)
  {
    var projected: Row := map[];
    for j := 0 to |cols|
      invariant forall k | 0 <= k < j :: cols[k] in row
      invariant projected == map n | n in row && n in cols[..j] :: row[n]
    {
      if cols[j] !in row {
        ProjectRowFirstMissing(row, cols, j);
        return Err(UnknownColumn(cols[j]));
      }
      assert cols[..j + 1] == cols[..j] + [cols[j]];
      projected := projected[cols[j] := row[cols[j]]];
    }
    assert cols[..|cols|] == cols;
    r := Ok(projected);
  }

  /** SELECT's projection: the matched rows in ascending id order, each projected. */
  method ProjectAll(filtered: RowMap, last: nat, cols: seq<string>) returns (r: Result<seq<Row>>)
    ensures r == ProjectRows(filtered, AscendingIds(filtered, last), cols)
  {
    var result: seq<Row> := [];
    for id := 0 to last
      invariant ProjectRows(filtered, IdsFrom(filtered, 0, last), cols) == Prepend(result, ProjectRows(filtered, IdsFrom(filtered, id, last), cols))
    {
      ProjectRowsUnroll(filtered, id, last, cols, result);
      if id in filtered {
        var projected := ProjectOne(filtered[id], cols);
        if projected.Err? {
          return Err(projected.error);
        }
        result := result + [projected.value];
      }
    }
    assert result + [] == result;
    r := Ok(result);
  }

  /** `_execute_join` once the right table is found: the left rows in order, those whose
      join value is None skipped, each against the right table through the right column's
      index when it has one and by a nested loop otherwise. */
  method JoinRows(leftTable: string, left: RowMap, last: nat, leftColumn: string,
                  right: Table, rightTable: string, rightColumn: string) returns (result: seq<Row>)
    requires right.Valid()
    ensures result == NestedJoin(leftTable, left, AscendingIds(left, last), leftColumn, rightTable,
                                 right.rows, AscendingIds(right.rows, right.nextRowId), rightColumn)
  {
    var useIndex := rightColumn in right.indexes;
    ghost var rightIds := AscendingIds(right.rows, right.nextRowId);
    ghost var goal := NestedJoin(leftTable, left, AscendingIds(left, last), leftColumn, rightTable, right.rows, rightIds, rightColumn);
    result := [];
    for id := 0 to last
      invariant goal == result + NestedJoin(leftTable, left, IdsFrom(left, id, last), leftColumn, rightTable, right.rows, rightIds, rightColumn)
    {
      NestedJoinUnroll(leftTable, left, id, last, leftColumn, rightTable, right.rows, rightIds, rightColumn);
      if id in left && !Get(left[id], leftColumn).Null? {
        var matches := LeftRowMatches(leftTable, left[id], leftColumn, right, rightTable, rightColumn, useIndex);
        EmitStep(goal, result, matches, NestedJoin(leftTable, left, IdsFrom(left, id + 1, last), leftColumn, rightTable, right.rows, rightIds, rightColumn));
        result := result + matches;
      }
    }
    assert result + [] == result;
  }

  /** The inner loop of `_execute_join` for one left row with a non-null join value: the
      index path when the right column has an index, the nested loop otherwise; both give
      what the nested loop gives. */
  method LeftRowMatches(leftTable: string, l: Row, leftColumn: string, right: Table, rightTable: string,
                        rightColumn: string, useIndex: bool) returns (matches: seq<Row>)
    requires right.Valid() && useIndex == (rightColumn in right.indexes) && !Get(l, leftColumn).Null?
    ensures matches == JoinMatches(leftTable, l, leftColumn, rightTable, right.rows,
                                   AscendingIds(right.rows, right.nextRowId), rightColumn)
  {
    if useIndex {
      matches := right.IndexMatches(leftTable, l, leftColumn, rightTable, rightColumn);
    } else {
      matches := right.ScanMatches(leftTable, l, leftColumn, rightTable, rightColumn);
    }
  }

  /** The inner loop of the index path: the left row merged with each stored, non-empty
      right row among `ids`, which hold at most one id; `goal` is what that must give. */
  method MergeHolders(leftTable: string, l: Row, rightTable: string, right: RowMap, ids: set<nat>,
                      ghost goal: seq<Row>) returns (matches: seq<Row>)
    requires ids == {} ==> goal == []
    requires forall id | id in ids :: ids == {id} && id in right && right[id] != map[] && goal == [Merge(leftTable, l, rightTable, right[id])]
    ensures matches == goal
  {
    matches := [];
    var remaining := ids;
    while remaining != {}
      invariant remaining <= ids
      invariant remaining == ids ==> matches == []
      invariant remaining != ids ==> remaining == {} && matches == goal
      decreases remaining
    {
      var id :| id in remaining;
      if id in right && right[id] != map[] {
        matches := matches + [Merge(leftTable, l, rightTable, right[id])];
      }
      remaining := remaining - {id};
    }
  }

  /** One entry of `QueryExecutor.tables`: the schema, the rows by id, the counter and the
      indexes, in the order they were created. */
  class Table {
    const schema: seq<Column>
    const indexes: map<string, Index>
    const indexOrder: seq<string>
    var rows: RowMap
    var nextRowId: nat

    /** The objects this table owns. */
    ghost function Repr(): set<object> {
      {this} + indexes.Values
    }

    /** The table as a value. */
    function Model(): TableState
      reads this
    {
      TableState(schema, rows, nextRowId)
    }

    ghost predicate Valid()
      reads this, indexes.Values
    {
      Mirrored(indexes, indexOrder, TableState(schema, rows, nextRowId))
    }

    /** The index objects are well-formed because they mirror distinct column values. */
    lemma IndexesValid()
      requires Valid()
      ensures forall n | n in indexes :: indexes[n].Valid()
    {
      forall n | n in indexes ensures indexes[n].Valid() {
        BucketsOfWellFormed(rows, n);
      }
    }

    /** `_load_table` from a schema and the stored rows; with no rows this is the table
        `_execute_create_table` makes. */
    constructor (cols: seq<Column>, saved: RowMap)
      requires WellFormed(LoadedTable(cols, saved))
      ensures Valid() && TableState(schema, rows, nextRowId) == LoadedTable(cols, saved)
      ensures fresh(Repr())
    {
      var idx, order := BuildIndexes(cols);
      assert KeyNames(cols) <= SchemaNames(cols);
      assert forall n | n in idx :: DistinctValues(saved, n);
      var next := LoadRows(idx, cols, saved);
      var loaded := saved;
      schema := cols;
      indexes := idx;
      indexOrder := order;
      rows := loaded;
      nextRowId := next;
    }

    /** `_check_constraints`: over the schema in order, a primary key must not be None and
        a key value must not be held by a row other than the excluded one. */
    method CheckConstraints(row: Row, exclude: Option<nat>) returns (err: Option<Error>)
      requires Valid()
      ensures err == ConstraintError(TableState(schema, rows, nextRowId), row, exclude)
    {
      for i := 0 to |schema|
        invariant ConstraintErrorIn(schema[i..], rows, row, exclude) == ConstraintError(TableState(schema, rows, nextRowId), row, exclude)
      {
        var c := schema[i];
        var v := Get(row, c.name);
        assert schema[i..][1..] == schema[i + 1..];
        if c.isPrimary && v.Null? {
          return Some(NullPrimaryKey(c.name));
        }
        if IsKey(c) && !v.Null? {
          assert c.name in indexes;
          var index := indexes[c.name];
          BucketsOfWellFormed(rows, c.name);
          BucketsOfSearch(rows, c.name, v);
          if index.HasValue(v) {
            var existing := index.Search(v);
            if exclude.Some? {
              existing := existing - {exclude.value};
            }
            if existing != {} {
              return Some(DuplicateValue(c.name, v));
            }
          }
        }
      }
      return None;
    }
    /** `_apply_where_clause`: all rows without conditions; the index answer for the first
        equality on an indexed column; otherwise a scan in row order. */
    method ApplyWhereClause(where: Option<seq<Condition>>) returns (filtered: RowMap)
      requires Valid()
      ensures filtered == FilterRows(TableState(schema, rows, nextRowId), where)
    {
      if where.None? || |where.value| == 0 {
        return rows;
      }
      var conds := where.value;
      for i := 0 to |conds|
        invariant IndexedCondition(conds[i..], KeyNames(schema)) == IndexedCondition(conds, KeyNames(schema))
      {
        var c := conds[i];
        assert conds[i..][1..] == conds[i + 1..];
        if c.op == Eq && c.column in indexes {
          BucketsOfWellFormed(rows, c.column);
          BucketsOfSearch(rows, c.column, c.value);
          var ids := indexes[c.column].Search(c.value);
          filtered := LookupRows(ids);
          return;
        }
      }
      assert conds[|conds|..] == [];
      filtered := ScanRows(conds);
    }

    /** The index path of `_apply_where_clause`: the rows under the ids found. */
    method LookupRows(ids: set<nat>) returns (filtered: RowMap)
      ensures filtered == map id | id in ids && id in rows :: rows[id]
    {
      filtered := map[];
      var remaining := ids;
      while remaining != {}
        invariant remaining <= ids
        invariant filtered == map id | id in ids - remaining && id in rows :: rows[id]
        decreases remaining
      {
        var id :| id in remaining;
        if id in rows {
          filtered := filtered[id := rows[id]];
        }
        remaining := remaining - {id};
      }
    }

    /** The index path of `_execute_join` for one left row with a non-null value, this
        being the right table: the rows the right column's index holds for that value,
        merged with the left row. */
    method IndexMatches(leftTable: string, l: Row, leftColumn: string, rightTable: string, rightColumn: string)
      returns (matches: seq<Row>)
      requires Valid() && rightColumn in indexes && !Get(l, leftColumn).Null?
      ensures matches == JoinMatches(leftTable, l, leftColumn, rightTable, rows, AscendingIds(rows, nextRowId), rightColumn)
    {
      var lv := Get(l, leftColumn);
      IndexJoin(leftTable, l, leftColumn, rightTable, TableState(schema, rows, nextRowId), rightColumn);
      var ids := indexes[rightColumn].Search(lv);
      matches := MergeHolders(leftTable, l, rightTable, rows, ids,
                              JoinMatches(leftTable, l, leftColumn, rightTable, rows, AscendingIds(rows, nextRowId), rightColumn));
    }

    /** The nested-loop path of `_execute_join` for one left row, this being the right
        table: every right row, in order, whose value equals the left row's, merged. */
    method ScanMatches(leftTable: string, l: Row, leftColumn: string, rightTable: string, rightColumn: string)
      returns (matches: seq<Row>)
      ensures matches == JoinMatches(leftTable, l, leftColumn, rightTable, rows, AscendingIds(rows, nextRowId), rightColumn)
    {
      var lv := Get(l, leftColumn);
      ghost var goal := JoinMatches(leftTable, l, leftColumn, rightTable, rows, AscendingIds(rows, nextRowId), rightColumn);
      matches := [];
      for id := 0 to nextRowId
        invariant goal == matches + JoinMatches(leftTable, l, leftColumn, rightTable, rows, IdsFrom(rows, id, nextRowId), rightColumn)
      {
        JoinMatchesUnroll(leftTable, l, leftColumn, rightTable, rows, id, nextRowId, rightColumn);
        var m := [];
        if id in rows && Equal(Get(rows[id], rightColumn), lv) {
          m := [Merge(leftTable, l, rightTable, rows[id])];
        }
        EmitStep(goal, matches, m, JoinMatches(leftTable, l, leftColumn, rightTable, rows, IdsFrom(rows, id + 1, nextRowId), rightColumn));
        matches := matches + m;
      }
      assert matches + [] == matches;
    }

    /** The full-scan path of `_apply_where_clause`: every row satisfying all conditions,
        the condition loop stopping at the first that fails. */
    method ScanRows(conds: seq<Condition>) returns (filtered: RowMap)
      requires forall id | id in rows :: id < nextRowId
      ensures filtered == Scan(rows, conds)
    {
      filtered := map[];
      for id := 0 to nextRowId
        invariant filtered == map x | x in rows && x < id && HoldsAll(rows[x], conds) :: rows[x]
      {
        if id in rows {
          var row := rows[id];
          var matchAll := true;
          var j := 0;
          while j < |conds| && matchAll
            invariant 0 <= j <= |conds|
            invariant matchAll <==> forall k | 0 <= k < j :: Holds(row, conds[k])
          {
            var c := conds[j];
            var colValue := Get(row, c.column);
            if c.op == Eq {
              if !Equal(colValue, c.value) {
                matchAll := false;
              }
            } else {
              if Equal(colValue, c.value) {
                matchAll := false;
              }
            }
            j := j + 1;
          }
          if matchAll {
            filtered := filtered[id := row];
          }
        }
      }
    }

    /** The row INSERT would store: the column list (or the whole schema) is zipped with
        the values, each written value is checked, the missing columns become None and the
        constraints are checked. */
    method CompleteRow(columns: Option<seq<string>>, values: seq<Value>) returns (r: Result<Row>)
      requires Valid()
      ensures r == InsertedRow(TableState(schema, rows, nextRowId), columns, values)
    {
      var names := if columns.Some? && |columns.value| > 0 then columns.value else ColumnNames(schema);
      if |names| != |values| {
        return Err(ArityMismatch(|names|, |values|));
      }
      var written := WriteValues(schema, map[], Zip(names, values));
      if written.Err? {
        return Err(written.error);
      }
      var row := FillNulls(schema, written.value);
      var err := CheckConstraints(row, None);
      if err.Some? {
        return Err(err.value);
      }
      r := Ok(row);
    }

    /** INSERT on this table: the completed row is stored under `next_row_id`, which is
        returned and advanced, and every index takes the row's value. */
    method InsertRow(columns: Option<seq<string>>, values: seq<Value>) returns (r: Result<nat>)
      requires Valid()
      modifies this, indexes.Values
      ensures Valid()
      ensures Step(TableState(schema, rows, nextRowId), r) == InsertSpec(TableState(schema, old(rows), old(nextRowId)), columns, values)
    {
      var completed := CompleteRow(columns, values);
      if completed.Err? {
        return Err(completed.error);
      }
      InsertSpecStores(TableState(schema, rows, nextRowId), columns, values, completed.value);
      r := Ok(nextRowId);
      StoreRow(completed.value);
    }

    /** The store of INSERT: a checked row enters every index and the table under
        `next_row_id`, which is advanced. */
    method StoreRow(row: Row)
      requires Valid() && Admissible(TableState(schema, rows, nextRowId), row, None)
      modifies this, indexes.Values
      ensures Valid()
      ensures rows == old(rows)[old(nextRowId) := row] && nextRowId == old(nextRowId) + 1
    {
      ghost var after := TableState(schema, rows[nextRowId := row], nextRowId + 1);
      IndexInsertedRow(indexes, indexOrder, TableState(schema, rows, nextRowId), row);
      label Indexed:
      rows := rows[nextRowId := row];
      nextRowId := nextRowId + 1;
      assert TableState(schema, rows, nextRowId) == after;
      MirroredUnchanged@Indexed(indexes, indexOrder, after);
    }

    /** The new value of one row of UPDATE: the assignments written over the stored row,
        checked against the other rows. */
    method CheckedRewrite(id: nat, assigns: seq<(string, Value)>) returns (r: Result<Row>)
      requires Valid() && id in rows
      ensures r.Err? ==> RewriteRow(TableState(schema, rows, nextRowId), id, assigns) == Err(r.error)
      ensures r.Ok? ==> RewriteRow(TableState(schema, rows, nextRowId), id, assigns) == Ok(TableState(schema, rows[id := r.value], nextRowId))
      ensures r.Ok? ==> WellFormed(TableState(schema, rows[id := r.value], nextRowId))
    {
      var written := WriteValues(schema, rows[id], assigns);
      if written.Err? {
        return Err(written.error);
      }
      var err := CheckConstraints(written.value, Some(id));
      if err.Some? {
        return Err(err.value);
      }
      r := Ok(written.value);
      RewriteRowPreservesWellFormed(TableState(schema, rows, nextRowId), id, assigns);
    }

    /** One row of UPDATE once checked: the indexes are updated, then the row is replaced. */
    method ReplaceRow(id: nat, row: Row)
      requires Valid() && id in rows
      requires WellFormed(TableState(schema, rows[id := row], nextRowId))
      modifies this, indexes.Values
      ensures Valid()
      ensures rows == old(rows)[id := row] && nextRowId == old(nextRowId)
    {
      ghost var after := TableState(schema, rows[id := row], nextRowId);
      IndexRewrittenRow(indexes, indexOrder, TableState(schema, rows, nextRowId), id, row);
      label Indexed:
      rows := rows[id := row];
      assert TableState(schema, rows, nextRowId) == after;
      MirroredUnchanged@Indexed(indexes, indexOrder, after);
    }

    /** One pass of UPDATE's row loop: a matched row is rewritten and counted, or the
        check it fails is raised; an unmatched id changes nothing. */
    method UpdateStep(filtered: RowMap, id: nat, assigns: seq<(string, Value)>, count: nat, ghost goal: Step)
      returns (r: Result<nat>)
      requires Valid() && id < nextRowId && forall x | x in filtered :: x in rows
      requires UpdateLoop(TableState(schema, rows, nextRowId), IdsFrom(filtered, id, nextRowId), assigns, count) == goal
      modifies this, indexes.Values
      ensures Valid() && nextRowId == old(nextRowId) && rows.Keys == old(rows).Keys
      ensures r.Ok? ==> UpdateLoop(TableState(schema, rows, nextRowId), IdsFrom(filtered, id + 1, nextRowId), assigns, r.value) == goal
      ensures r.Err? ==> Step(TableState(schema, rows, nextRowId), r) == goal
    {
      UpdateLoopUnroll(TableState(schema, rows, nextRowId), filtered, id, nextRowId, assigns, count);
      if id !in filtered {
        return Ok(count);
      }
      var rewritten := CheckedRewrite(id, assigns);
      if rewritten.Err? {
        return Err(rewritten.error);
      }
      ReplaceRow(id, rewritten.value);
      r := Ok(count + 1);
    }

    /** UPDATE on this table: the matched rows, fixed before any change, are rewritten in
        row order; the first row that fails a check stops the loop and raises, with the
        earlier rows already rewritten. */
    method UpdateRows(assigns: seq<(string, Value)>, where: Option<seq<Condition>>) returns (r: Result<nat>)
      requires Valid()
      modifies this, indexes.Values
      ensures Valid()
      ensures Step(TableState(schema, rows, nextRowId), r) == UpdateSpec(TableState(schema, old(rows), old(nextRowId)), assigns, where)
    {
      var filtered := ApplyWhereClause(where);
      ghost var goal := UpdateSpec(TableState(schema, rows, nextRowId), assigns, where);
      ghost var keys := rows.Keys;
      var last := nextRowId;
      var count := 0;
      for id := 0 to last
        invariant Valid() && nextRowId == last && rows.Keys == keys
        invariant UpdateLoop(TableState(schema, rows, last), IdsFrom(filtered, id, last), assigns, count) == goal
      {
        var step := UpdateStep(filtered, id, assigns, count, goal);
        if step.Err? {
          return step;
        }
        count := step.value;
      }
      r := Ok(count);
    }

    /** One row of DELETE: the row leaves every index, then the table. */
    method RemoveRow(id: nat)
      requires Valid() && id in rows
      modifies this, indexes.Values
      ensures Valid()
      ensures rows == old(rows) - {id} && nextRowId == old(nextRowId)
    {
      IndexDeletedRow(indexes, indexOrder, TableState(schema, rows, nextRowId), id);
      label removed:
      rows := rows - {id};
      MirroredUnchanged@removed(indexes, indexOrder, TableState(schema, rows, nextRowId));
    }

    /** DELETE on this table: every matched row is removed and counted. */
    method DeleteRows(where: Option<seq<Condition>>) returns (count: nat)
      requires Valid()
      modifies this, indexes.Values
      ensures Valid()
      ensures Step(TableState(schema, rows, nextRowId), Ok(count)) == DeleteSpec(TableState(schema, old(rows), old(nextRowId)), where)
    {
      var filtered := ApplyWhereClause(where);
      ghost var start := TableState(schema, rows, nextRowId);
      ghost var goal := DeleteLoop(start, IdsFrom(filtered, 0, nextRowId), 0);
      var last := nextRowId;
      count := 0;
      for id := 0 to last
        invariant Valid() && nextRowId == last
        invariant forall x | x in filtered && id <= x :: x in rows
        invariant DeleteLoop(TableState(schema, rows, last), IdsFrom(filtered, id, last), count) == goal
      {
        count := DeleteStep(filtered, id, count, goal);
      }
      assert goal == DeleteSpec(start, where);
    }

    /** One turn of the delete loop: a matched id leaves the table and is counted. */
    method DeleteStep(filtered: RowMap, id: nat, count: nat, ghost goal: Step) returns (next: nat)
      requires Valid() && id < nextRowId && forall x | x in filtered && id <= x :: x in rows
      requires DeleteLoop(TableState(schema, rows, nextRowId), IdsFrom(filtered, id, nextRowId), count) == goal
      modifies this, indexes.Values
      ensures Valid() && nextRowId == old(nextRowId)
      ensures forall x | x in filtered && id + 1 <= x :: x in rows
      ensures DeleteLoop(TableState(schema, rows, nextRowId), IdsFrom(filtered, id + 1, nextRowId), next) == goal
    {
      DeleteLoopUnroll(TableState(schema, rows, nextRowId), filtered, id, nextRowId, count);
      if id !in filtered {
        return count;
      }
      RemoveRow(id);
      next := count + 1;
    }
  }

  /** Each table object owns its objects alone and they lie within `repr`; this does not
      depend on the heap. */
  ghost predicate TablesOwned(tables: map<string, Table>, repr: set<object>) {
    && (forall n | n in tables :: tables[n].Repr() <= repr)
    && (forall n, m | n in tables && m in tables && n != m :: tables[n].Repr() !! tables[m].Repr())
  }

  /** The tables own their objects, and each table is valid and has the value `model`
      gives it. */
  ghost predicate TablesValid(tables: map<string, Table>, model: map<string, TableState>, repr: set<object>)
    reads repr
  {
    && tables.Keys == model.Keys
    && TablesOwned(tables, repr)
    && (forall n | n in tables :: tables[n].Valid() && model[n] == tables[n].Model())
  }

  /** A valid table owning objects of its own joins the tables. */
  lemma AddTable(tables: map<string, Table>, model: map<string, TableState>, repr: set<object>, n: string, t: Table)
    requires TablesValid(tables, model, repr) && n !in tables
    requires t.Valid() && t.Repr() !! repr
    ensures TablesValid(tables[n := t], model[n := t.Model()], repr + t.Repr())
  {
  }

  /** `_load_table` for a name with a non-empty schema file: the columns from the
      definitions, the stored rows and indexes over them. */
  method LoadTable(s: Store, n: string) returns (t: Table)
    requires StoreWellFormed(s) && n in s.schemas
    ensures t.Valid() && fresh(t.Repr())
    ensures t.Model() == LoadedTable(ColumnsOf(s.schemas[n]).value, StoredRows(s, n))
  {
    StoredTableWellFormed(s, n);
    var cols, _ := BuildColumns(s.schemas[n]);
    t := new Table(cols.value, StoredRows(s, n));
  }

  /** The loop of `_load_existing_tables`: each name with a schema file, in any order,
      is loaded by `_load_table`, which skips an empty schema. */
  method LoadExistingTables(s: Store) returns (loaded: map<string, Table>, ghost m: map<string, TableState>, ghost r: set<object>)
    requires StoreWellFormed(s)
    ensures TablesValid(loaded, m, r) && m == LoadTables(s)
    ensures fresh(r)
  {
    loaded := map[];
    m := map[];
    r := {};
    var remaining := s.schemas.Keys;
    ghost var done: set<string> := {};
    while remaining != {}
      invariant done + remaining == s.schemas.Keys && done !! remaining
      invariant m == LoadedFrom(s, done)
      invariant TablesValid(loaded, m, r) && fresh(r)
      decreases remaining
    {
      var n :| n in remaining;
      LoadedFromStep(s, done, n);
      assert n !in m;
      remaining := remaining - {n};
      done := done + {n};
      loaded, m, r := LoadNext(s, n, loaded, m, r);
    }
    LoadedFromAll(s);
  }

  /** One pass of `_load_existing_tables`: the table of a name not loaded yet joins the
      tables unless its schema is empty. */
  method LoadNext(s: Store, n: string, loaded: map<string, Table>, ghost m: map<string, TableState>, ghost r: set<object>)
    returns (next: map<string, Table>, ghost nextModel: map<string, TableState>, ghost nextRepr: set<object>)
    requires StoreWellFormed(s) && n in s.schemas && n !in m && TablesValid(loaded, m, r)
    ensures TablesValid(next, nextModel, nextRepr)
    ensures nextModel ==
      if |s.schemas[n]| > 0 then m[n := LoadedTable(ColumnsOf(s.schemas[n]).value, StoredRows(s, n))] else m
    ensures r <= nextRepr && fresh(nextRepr - r)
  {
    if |s.schemas[n]| == 0 {
      return loaded, m, r;
    }
    var t := LoadTable(s, n);
    AddTable(loaded, m, r, n, t);
    next, nextModel, nextRepr := loaded[n := t], m[n := t.Model()], r + t.Repr();
  }

  /** Changing the objects of one table, and nothing else, keeps the other tables as they
      were; when that table is still valid the tables are valid with its new value. */
  twostate lemma OneTableChanged(tables: map<string, Table>, new model: map<string, TableState>, new repr: set<object>,
                                 new name: string, new now: TableState)
    requires old(allocated(repr)) && old(TablesValid(tables, model, repr)) && name in tables
    requires unchanged(repr - tables[name].Repr())
    requires tables[name].Valid() && now == tables[name].Model()
    ensures TablesValid(tables, model[name := now], repr)
  {
    var after := model[name := now];
    forall n | n in tables
      ensures tables[n].Valid() && after[n] == tables[n].Model()
    {
      if n != name {
        OtherTableUnchanged(tables, model, repr, name, n);
      }
    }
    assert tables.Keys == after.Keys;
  }

  /** A table other than the one whose objects changed keeps its validity and value. */
  twostate lemma OtherTableUnchanged(new tables: map<string, Table>, new model: map<string, TableState>,
                                     new repr: set<object>, new name: string, n: string)
    requires old(allocated(tables)) && old(allocated(model)) && old(allocated(repr)) && old(allocated(name))
    requires old(TablesValid(tables, model, repr)) && name in tables && n in tables && n != name
    requires unchanged(repr - tables[name].Repr())
    ensures tables[n].Valid() && tables[n].Model() == model[n]
  {
    assert tables[n].Repr() !! tables[name].Repr();
    TableUnchanged(tables[n]);
  }

  /** A table whose objects did not change is as valid as it was and has the same value. */
  twostate lemma TableUnchanged(new t: Table)
    requires old(allocated(t)) && old(t.Valid()) && unchanged(t.Repr())
    ensures t.Valid() && t.Model() == old(t.Model())
  {
  }

  /** Indexes whose objects did not change since `old` mirror what they mirrored. */
  twostate lemma MirroredUnchanged(new indexes: map<string, Index>, new order: seq<string>, t: TableState)
    requires old(allocated(indexes)) && old(Mirrored(indexes, order, t)) && unchanged(indexes.Values)
    ensures Mirrored(indexes, order, t)
  {
  }

  /** Tables whose objects did not change since `old` are as valid as they were. */
  twostate lemma TablesUnchanged(new tables: map<string, Table>, new model: map<string, TableState>, repr: set<object>)
    requires old(allocated(tables)) && old(TablesValid(tables, model, repr)) && unchanged(repr)
    ensures TablesValid(tables, model, repr)
  {
  }

  /** `QueryExecutor`: the tables in memory, each a `Table` object of its own, and the
      data directory they are saved to. `model` is the tables as values. */
  class QueryExecutor {
    var tables: map<string, Table>
    var store: Store
    ghost var model: map<string, TableState>
    ghost var Repr: set<object>

    /** The executor as a value. */
    ghost function Snapshot(): Db
      reads this
    {
      Db(model, store)
    }

    /** The tables are valid and own their objects, and the database is consistent. */
    ghost predicate Valid()
      reads this, Repr
    {
      && this !in Repr
      && TablesValid(tables, model, Repr)
      && Consistent(Db(model, store))
    }

    /** `__init__` and `_load_existing_tables`: every table with a non-empty schema file
        is loaded from its files. */
    constructor (s: Store)
      requires StoreWellFormed(s)
      ensures Valid() && Snapshot() == Db(LoadTables(s), s)
      ensures fresh(Repr)
    {
      var loaded, m, r := LoadExistingTables(s);
      tables := loaded;
      store := s;
      model := m;
      Repr := r;
      LoadIsConsistent(s);
    }

    /** Takes on the tables, their values, their objects and the files given. */
    method Commit(ts: map<string, Table>, ghost m: map<string, TableState>, ghost r: set<object>, s: Store)
      requires this !in r && TablesValid(ts, m, r)
      modifies this
      ensures tables == ts && model == m && Repr == r && store == s
      ensures TablesValid(tables, model, Repr)
    {
      tables := ts;
      model := m;
      Repr := r;
      store := s;
      TablesUnchanged(tables, model, Repr);
    }

    /** `_execute_create_table`: a new table of the columns the definitions give, saved
        with its schema record and no rows. */
    method Create(name: string, defs: seq<ColumnDef>) returns (r: Result<QueryResult>)
      requires Valid()
      modifies this
      ensures Valid() && fresh(Repr - old(Repr))
      ensures Outcome(Snapshot(), r) == ExecuteCreate(old(Snapshot()), name, defs)
    {
      if name in tables {
        return Err(TableExists(name));
      }
      var cols, record := BuildColumns(defs);
      if cols.Err? {
        return Err(cols.error);
      }
      ghost var db0 := Snapshot();
      CreatePreservesConsistency(db0, name, defs);
      EmptyTableLoaded(cols.value);
      var t := new Table(cols.value, map[]);
      AddTable(tables, model, Repr, name, t);
      Commit(tables[name := t], model[name := t.Model()], Repr + t.Repr(), Store(store.schemas[name := record], store.data[name := map[]]));
      r := Ok(Created(name));
    }

    /** The table half of `_execute_insert`: the row goes into the table named; no other
        table changes. */
    method InsertInto(name: string, columns: Option<seq<string>>, values: seq<Value>) returns (id: Result<nat>)
      requires this !in Repr && TablesValid(tables, model, Repr) && name in tables
      modifies Repr
      ensures TablesValid(tables, model[name := tables[name].Model()], Repr)
      ensures Step(tables[name].Model(), id) == InsertSpec(model[name], columns, values)
    {
      var t := tables[name];
      assert t.Model() == model[name];
      id := t.InsertRow(columns, values);
      OneTableChanged(tables, model, Repr, name, t.Model());
    }

    /** `_execute_insert`. */
    method Insert(name: string, columns: Option<seq<string>>, values: seq<Value>) returns (r: Result<QueryResult>)
      requires Valid()
      modifies this, Repr
      ensures Valid() && Repr == old(Repr)
      ensures Outcome(Snapshot(), r) == ExecuteInsert(old(Snapshot()), name, columns, values)
    {
      if name !in tables {
        return Err(NoSuchTable(name));
      }
      ghost var db0 := Snapshot();
      var id := InsertInto(name, columns, values);
      var t := tables[name];
      ghost var now := t.Model();
      InsertCommits(db0, name, columns, values, now, id);
      Commit(tables, model[name := now], Repr, if id.Ok? then SaveRows(store, name, t.rows) else store);
      r := if id.Ok? then Ok(Inserted(id.value)) else Err(id.error);
    }

    /** The table half of `_execute_update`: the named table is rewritten; no other table
        changes. */
    method UpdateIn(name: string, assigns: seq<(string, Value)>, where: Option<seq<Condition>>) returns (count: Result<nat>)
      requires this !in Repr && TablesValid(tables, model, Repr) && name in tables
      modifies Repr
      ensures TablesValid(tables, model[name := tables[name].Model()], Repr)
      ensures Step(tables[name].Model(), count) == UpdateSpec(model[name], assigns, where)
    {
      var t := tables[name];
      assert t.Model() == model[name];
      count := t.UpdateRows(assigns, where);
      OneTableChanged(tables, model, Repr, name, t.Model());
    }

    /** `_execute_update`. */
    method Update(name: string, assigns: seq<(string, Value)>, where: Option<seq<Condition>>) returns (r: Result<QueryResult>)
      requires Valid()
      modifies this, Repr
      ensures Valid() && Repr == old(Repr)
      ensures Outcome(Snapshot(), r) == ExecuteUpdate(old(Snapshot()), name, assigns, where)
    {
      if name !in tables {
        return Err(NoSuchTable(name));
      }
      ghost var db0 := Snapshot();
      var count := UpdateIn(name, assigns, where);
      var t := tables[name];
      ghost var now := t.Model();
      UpdateCommits(db0, name, assigns, where, now, count);
      Commit(tables, model[name := now], Repr, if count.Ok? && count.value > 0 then SaveRows(store, name, t.rows) else store);
      r := if count.Ok? then Ok(Updated(count.value)) else Err(count.error);
    }

    /** The table half of `_execute_delete`: rows go from the named table; no other table
        changes. */
    method DeleteFrom(name: string, where: Option<seq<Condition>>) returns (count: nat)
      requires this !in Repr && TablesValid(tables, model, Repr) && name in tables
      modifies Repr
      ensures TablesValid(tables, model[name := tables[name].Model()], Repr)
      ensures Step(tables[name].Model(), Ok(count)) == DeleteSpec(model[name], where)
    {
      var t := tables[name];
      assert t.Model() == model[name];
      count := t.DeleteRows(where);
      OneTableChanged(tables, model, Repr, name, t.Model());
    }

    /** `_execute_delete`. */
    method Delete(name: string, where: Option<seq<Condition>>) returns (r: Result<QueryResult>)
      requires Valid()
      modifies this, Repr
      ensures Valid() && Repr == old(Repr)
      ensures Outcome(Snapshot(), r) == ExecuteDelete(old(Snapshot()), name, where)
    {
      if name !in tables {
        return Err(NoSuchTable(name));
      }
      ghost var db0 := Snapshot();
      var count := DeleteFrom(name, where);
      var t := tables[name];
      ghost var now := t.Model();
      DeleteCommits(db0, name, where, now, count);
      Commit(tables, model[name := now], Repr, if count > 0 then SaveRows(store, name, t.rows) else store);
      r := Ok(Deleted(count));
    }

    /** `_execute_select`: the rows that satisfy the WHERE clause, joined when a join is
        given and projected on the selected columns otherwise. Nothing changes. */
    method Select(name: string, projection: seq<string>, where: Option<seq<Condition>>, join: Option<JoinSpec>)
      returns (r: Result<QueryResult>)
      requires Valid()
      ensures r == ExecuteSelect(Snapshot(), name, projection, where, join)
    {
      if name !in tables {
        return Err(NoSuchTable(name));
      }
      var t := tables[name];
      var columns := SelectedColumns(t.schema, projection);
      var matched := t.ApplyWhereClause(where);
      match join {
        case Some(j) =>
          if j.table !in tables {
            return Err(NoSuchTable(j.table));
          }
          var joined := JoinRows(name, matched, t.nextRowId, j.leftColumn, tables[j.table], j.table, j.rightColumn);
          r := Ok(Selected(columns, joined));
        case None =>
          var projected := ProjectAll(matched, t.nextRowId, columns);
          r := if projected.Ok? then Ok(Selected(columns, projected.value)) else Err(projected.error);
      }
    }

    /** `execute`: the statement is run by the method for its kind, with the outcome the
        database model gives it, and the executor stays valid. */
    method Execute(stmt: Statement) returns (r: Result<QueryResult>)
      requires Valid()
      modifies this, Repr
      ensures Valid() && fresh(Repr - old(Repr))
      ensures Outcome(Snapshot(), r) == Database.Execute(old(Snapshot()), stmt)
    {
      match stmt {
        case CreateTable(name, defs) => r := Create(name, defs);
        case Insert(name, columns, values) => r := Insert(name, columns, values);
        case Select(name, projection, where, join) => r := Select(name, projection, where, join);
        case Update(name, assigns, where) => r := Update(name, assigns, where);
        case Delete(name, where) => r := Delete(name, where);
      }
    }
  }
}
