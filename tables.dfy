/**
 * The executor's tables as values (database/executor.py). A table is its schema, its
 * rows keyed by row-id and its `next_row_id` counter; the indexes are not part of the
 * state here because they are determined by the rows (`BucketsOf`), which is the
 * invariant the executor's `Index` objects are proved to keep.
 *
 * Python dicts iterate in insertion order. Rows are inserted with increasing ids and a
 * replaced row keeps its place, so every loop over the rows of a table visits the ids
 * in ascending order; `AscendingIds` is that order.
 */
module TableModel {
  import opened Wrappers
  import opened Types
  import opened Errors
  import opened Grammar

  /** `table['data']['rows']`, keyed by the integer row-id. */
  type RowMap = map<nat, Row>

  datatype TableState = TableState(schema: seq<Column>, rows: RowMap, nextRowId: nat)

  // ---------------------------------------------------------------------------
  // Schema lookups
  // ---------------------------------------------------------------------------

  /** `next((col for col in columns if col.name == name), None)`: the first column so named. */
  function FindColumn(schema: seq<Column>, name: string): (r: Option<Column>)
    ensures r.Some? ==> r.value in schema && r.value.name == name
    ensures r.None? <==> name !in SchemaNames(schema)
  {
    if |schema| == 0 then None
    else if schema[0].name == name then Some(schema[0])
    else
      assert SchemaNames(schema) == {schema[0].name} + SchemaNames(schema[1..]) by {
        assert forall c | c in schema :: c == schema[0] || c in schema[1..];
      }
      FindColumn(schema[1..], name)
  }

  function SchemaNames(schema: seq<Column>): set<string> {
    set c | c in schema :: c.name
  }

  /** `[col.name for col in schema]`. */
  function ColumnNames(schema: seq<Column>): (names: seq<string>)
    ensures |names| == |schema| && forall i | 0 <= i < |schema| :: names[i] == schema[i].name
  {
    seq(|schema|, i requires 0 <= i < |schema| => schema[i].name)
  }

  /** A column that gets an index: primary or unique. */
  predicate IsKey(c: Column) {
    c.isPrimary || c.isUnique
  }

  /** The names that carry an index. */
  function KeyNames(schema: seq<Column>): set<string> {
    set c | c in schema && IsKey(c) :: c.name
  }

  /** The order in which `indexes` was filled: key names by first occurrence. */
  function KeyNameOrder(schema: seq<Column>): (order: seq<string>)
    ensures forall i, j | 0 <= i < j < |order| :: order[i] != order[j]
    ensures forall n :: n in order <==> n in KeyNames(schema)
    decreases |schema|
  {
    if |schema| == 0 then []
    else
      var init := schema[..|schema| - 1];
      var c := schema[|schema| - 1];
      KeyNamesSnoc(init, c);
      assert init + [c] == schema;
      var order := KeyNameOrder(init);
      if IsKey(c) && c.name !in order then order + [c.name] else order
  }

  /** A column added at the end adds its name to the key names when it is a key. */
  lemma KeyNamesSnoc(init: seq<Column>, c: Column)
    ensures KeyNames(init + [c]) == KeyNames(init) + (if IsKey(c) then {c.name} else {})
  {
    var schema := init + [c];
    assert forall d | d in schema :: d == c || d in init;
    assert forall d | d in init :: d in schema;
  }

  /** One more column of the index-building loop: a key name not seen before goes to the
      end of the order. */
  lemma KeyNameOrderSnoc(cols: seq<Column>, i: nat)
    requires i < |cols|
    ensures KeyNames(cols[..i + 1]) == KeyNames(cols[..i]) + (if IsKey(cols[i]) then {cols[i].name} else {})
    ensures KeyNameOrder(cols[..i + 1]) ==
      if IsKey(cols[i]) && cols[i].name !in KeyNames(cols[..i]) then KeyNameOrder(cols[..i]) + [cols[i].name]
      else KeyNameOrder(cols[..i])
  {
    assert cols[..i + 1] == cols[..i] + [cols[i]];
    assert cols[..i + 1][..i] == cols[..i];
    KeyNamesSnoc(cols[..i], cols[i]);
  }

  // ---------------------------------------------------------------------------
  // The index a column should have
  // ---------------------------------------------------------------------------

  /** The ids of the rows whose value in column `n` has key `k`; None is never indexed. */
  function Holders(rows: RowMap, n: string, k: ValueKey): set<nat> {
    set id | id in rows && k != NullKey && KeyOf(Get(rows[id], n)) == k
  }

  /** The keys of the non-null values of column `n`. */
  function ColumnKeys(rows: RowMap, n: string): set<ValueKey> {
    set id | id in rows && !Get(rows[id], n).Null? :: KeyOf(Get(rows[id], n))
  }

  /** The buckets an index over column `n` holds once every row has been inserted. */
  function BucketsOf(rows: RowMap, n: string): (b: Buckets)
    ensures b.Keys == ColumnKeys(rows, n)
    ensures forall k | k in b :: b[k] == Holders(rows, n, k)
  {
    map k | k in ColumnKeys(rows, n) :: Holders(rows, n, k)
  }

  /** No two rows share a non-null value in column `n`. */
  ghost predicate DistinctValues(rows: RowMap, n: string) {
    forall i, j | i in rows && j in rows && i != j && !Get(rows[i], n).Null? ::
      KeyOf(Get(rows[i], n)) != KeyOf(Get(rows[j], n))
  }

  /** Part of a column with distinct values has distinct values. */
  lemma DistinctInSubmap(rows: RowMap, sub: RowMap, n: string)
    requires DistinctValues(rows, n)
    requires forall id | id in sub :: id in rows && sub[id] == rows[id]
    ensures DistinctValues(sub, n)
  {
  }

  /** A row that may join a column with distinct values under a fresh id finds its value
      held by no other row. */
  lemma FreshRowHoldsNewValue(rows: RowMap, n: string, id: nat, row: Row)
    requires id !in rows
    requires DistinctValues(rows[id := row], n)
    requires !Get(row, n).Null?
    ensures Holders(rows, n, KeyOf(Get(row, n))) == {}
  {
    var r2 := rows[id := row];
    forall j | j in rows ensures KeyOf(Get(rows[j], n)) != KeyOf(Get(row, n)) {
      assert j in r2 && r2[j] == rows[j] && r2[id] == row && j != id;
    }
  }

  /** Searching the reference buckets finds exactly the holders of the value. */
  lemma BucketsOfSearch(rows: RowMap, n: string, v: Value)
    ensures SearchIn(BucketsOf(rows, n), v) == Holders(rows, n, KeyOf(v))
  {
    var k := KeyOf(v);
    forall id | id in Holders(rows, n, k) ensures k in ColumnKeys(rows, n) {
      NullKeyOnlyForNull(Get(rows[id], n));
    }
  }

  /** The reference buckets of a column with distinct values form a well-formed unique index. */
  lemma BucketsOfWellFormed(rows: RowMap, n: string)
    requires DistinctValues(rows, n)
    ensures WellFormedBuckets(BucketsOf(rows, n), true)
  {
    var b := BucketsOf(rows, n);
    forall k | k in b ensures b[k] != {} && |b[k]| <= 1 {
      var id :| id in rows && !Get(rows[id], n).Null? && KeyOf(Get(rows[id], n)) == k;
      NullKeyOnlyForNull(Get(rows[id], n));
      assert id in b[k];
      assert b[k] == {id} by {
        forall j | j in b[k] ensures j == id {
          assert KeyOf(Get(rows[j], n)) == KeyOf(Get(rows[id], n));
        }
      }
    }
    assert NullKey !in b by {
      forall id | id in rows && !Get(rows[id], n).Null? ensures KeyOf(Get(rows[id], n)) != NullKey {
        NullKeyOnlyForNull(Get(rows[id], n));
      }
    }
  }

  /** A value is held by at most one row of a column with distinct values. */
  lemma HoldersAtMostOne(rows: RowMap, n: string, k: ValueKey)
    requires DistinctValues(rows, n)
    ensures |Holders(rows, n, k)| <= 1
  {
    var h := Holders(rows, n, k);
    if h != {} {
      var id :| id in h;
      NullKeyOnlyForNull(Get(rows[id], n));
      assert h == {id} by {
        forall j | j in h ensures j == id {
          assert KeyOf(Get(rows[j], n)) == KeyOf(Get(rows[id], n));
        }
      }
    }
  }

  /** Adding a row under a fresh id adds it to the holders of its value only. */
  lemma HoldersOfAdd(rows: RowMap, n: string, id: nat, row: Row, k: ValueKey)
    requires id !in rows
    ensures Holders(rows[id := row], n, k) ==
      if !Get(row, n).Null? && k == KeyOf(Get(row, n)) then Holders(rows, n, k) + {id} else Holders(rows, n, k)
  {
    NullKeyOnlyForNull(Get(row, n));
    var r2 := rows[id := row];
    forall j | j in r2 ensures Get(r2[j], n) == if j == id then Get(row, n) else Get(rows[j], n) {
    }
  }

  /** Adding a row under a fresh id adds the key of its value, if any, to the column's keys. */
  lemma ColumnKeysOfAdd(rows: RowMap, n: string, id: nat, row: Row)
    requires id !in rows
    ensures ColumnKeys(rows[id := row], n) ==
      if Get(row, n).Null? then ColumnKeys(rows, n) else ColumnKeys(rows, n) + {KeyOf(Get(row, n))}
  {
    var r2 := rows[id := row];
    var v := Get(row, n);
    forall k | k in ColumnKeys(rows, n) ensures k in ColumnKeys(r2, n) {
      var j :| j in rows && !Get(rows[j], n).Null? && KeyOf(Get(rows[j], n)) == k;
      assert j in r2 && Get(r2[j], n) == Get(rows[j], n);
    }
    forall k | k in ColumnKeys(r2, n) ensures k in ColumnKeys(rows, n) || (!v.Null? && k == KeyOf(v)) {
      var j :| j in r2 && !Get(r2[j], n).Null? && KeyOf(Get(r2[j], n)) == k;
      if j != id {
        assert j in rows && Get(rows[j], n) == Get(r2[j], n);
      }
    }
    if !v.Null? {
      assert id in r2 && Get(r2[id], n) == v;
    }
  }

  /** Adding a row under a fresh id adds it to the bucket of its value. */
  lemma BucketsOfAdd(rows: RowMap, n: string, id: nat, row: Row)
    requires id !in rows
    ensures BucketsOf(rows[id := row], n) ==
      if Get(row, n).Null? then BucketsOf(rows, n) else Added(BucketsOf(rows, n), KeyOf(Get(row, n)), id)
  {
    var r2 := rows[id := row];
    var v := Get(row, n);
    ColumnKeysOfAdd(rows, n, id, row);
    var b, b2 := BucketsOf(rows, n), BucketsOf(r2, n);
    forall k | k in b2 ensures b2[k] == if !v.Null? && k == KeyOf(v) then Holders(rows, n, k) + {id} else b[k] {
      HoldersOfAdd(rows, n, id, row, k);
    }
    if v.Null? {
      assert b2 == b;
    } else {
      BucketsOfSearch(rows, n, v);
      var a := Added(b, KeyOf(v), id);
      assert a.Keys == b2.Keys;
      assert forall k | k in a :: a[k] == b2[k];
    }
  }

  /** Removing a row removes its id from the bucket of its value. */
  lemma BucketsOfRemove(rows: RowMap, n: string, id: nat)
    requires id in rows
    ensures BucketsOf(rows - {id}, n) == Removed(BucketsOf(rows, n), KeyOf(Get(rows[id], n)), id)
  {
    var r2 := rows - {id};
    var v := Get(rows[id], n);
    assert rows == r2[id := rows[id]];
    BucketsOfAdd(r2, n, id, rows[id]);
    var b := BucketsOf(r2, n);
    if !v.Null? {
      var k := KeyOf(v);
      var a := Added(b, k, id);
      assert id !in Holders(r2, n, k);
      if k in b {
        assert a[k] - {id} == b[k];
        assert b[k] != {};
        assert Removed(a, k, id) == a[k := b[k]];
        assert a[k := b[k]] == b;
      } else {
        assert a[k] - {id} == {};
        assert Removed(a, k, id) == a - {k};
        assert a - {k} == b;
      }
    } else {
      NullKeyOnlyForNull(v);
      assert NullKey !in b by {
        forall j | j in r2 && !Get(r2[j], n).Null? ensures KeyOf(Get(r2[j], n)) != NullKey {
          NullKeyOnlyForNull(Get(r2[j], n));
        }
      }
    }
  }

  /** Replacing a row moves its id from the bucket of its old value to that of its new one,
      and changes nothing when the two values are equal. */
  lemma BucketsOfReplace(rows: RowMap, n: string, id: nat, row: Row)
    requires id in rows
    ensures var oldV, newV := Get(rows[id], n), Get(row, n);
      var mid := Removed(BucketsOf(rows, n), KeyOf(oldV), id);
      && (Equal(oldV, newV) ==> BucketsOf(rows[id := row], n) == BucketsOf(rows, n))
      && (!Equal(oldV, newV) ==>
            BucketsOf(rows[id := row], n) == (if newV.Null? then mid else Added(mid, KeyOf(newV), id)))
      && (!newV.Null? && !Equal(oldV, newV) ==> SearchIn(mid, newV) == Holders(rows, n, KeyOf(newV)))
  {
    var r2 := rows - {id};
    BucketsOfRemove(rows, n, id);
    assert rows[id := row] == r2[id := row];
    BucketsOfAdd(r2, n, id, row);
    var oldV, newV := Get(rows[id], n), Get(row, n);
    if Equal(oldV, newV) {
      assert rows == r2[id := rows[id]];
      BucketsOfAdd(r2, n, id, rows[id]);
      NullKeyOnlyForNull(oldV);
      NullKeyOnlyForNull(newV);
    } else if !newV.Null? {
      BucketsOfSearch(r2, n, newV);
      assert Holders(r2, n, KeyOf(newV)) == Holders(rows, n, KeyOf(newV)) by {
        assert KeyOf(Get(rows[id], n)) != KeyOf(newV);
      }
    }
  }

  // ---------------------------------------------------------------------------
  // The table invariant
  // ---------------------------------------------------------------------------

  /** What the executor keeps true of every table:
      - row-ids are positive and below `next_row_id`;
      - every row has exactly the schema's column names as keys;
      - primary-key values are never None;
      - key columns hold no value twice;
      - every value validates against the first column of its name. */
  ghost predicate WellFormed(t: TableState) {
    && t.nextRowId >= 1
    && (forall id | id in t.rows :: 1 <= id < t.nextRowId)
    && (forall id | id in t.rows :: t.rows[id].Keys == SchemaNames(t.schema))
    && (forall id, c | id in t.rows && c in t.schema && c.isPrimary :: !Get(t.rows[id], c.name).Null?)
    && (forall n | n in KeyNames(t.schema) :: DistinctValues(t.rows, n))
    && (forall id | id in t.rows :: RowValid(t.schema, t.rows[id]))
  }

  /** Every value of the row validates against the first column of its name. */
  predicate RowValid(schema: seq<Column>, row: Row) {
    forall n | n in row :: FindColumn(schema, n).Some? && ValidateValue(FindColumn(schema, n).value, row[n])
  }

  /** Writing a row under `id` keeps a column's values distinct when no other row holds
      the row's value. */
  lemma DistinctAfterPut(rows: RowMap, n: string, id: nat, row: Row)
    requires DistinctValues(rows, n)
    requires !Get(row, n).Null? ==> Holders(rows, n, KeyOf(Get(row, n))) <= {id}
    ensures DistinctValues(rows[id := row], n)
  {
    var r2 := rows[id := row];
    forall i, j | i in r2 && j in r2 && i != j && !Get(r2[i], n).Null?
      ensures KeyOf(Get(r2[i], n)) != KeyOf(Get(r2[j], n))
    {
      if i == id {
        NullKeyOnlyForNull(Get(row, n));
        assert j !in Holders(rows, n, KeyOf(Get(row, n)));
      } else if j == id {
        NullKeyOnlyForNull(Get(rows[i], n));
        assert i !in Holders(rows, n, KeyOf(Get(row, n)));
      } else {
        assert r2[i] == rows[i] && r2[j] == rows[j];
      }
    }
  }

  // ---------------------------------------------------------------------------
  // Constraints (`_check_constraints`)
  // ---------------------------------------------------------------------------

  /** `existing_rows - {exclude_row_id}` when an id is excluded. */
  function Excluding(ids: set<nat>, exclude: Option<nat>): set<nat> {
    if exclude.Some? then ids - {exclude.value} else ids
  }

  /** Column `c` accepts `row`: a primary key is not None, and no other row holds the
      row's non-null value of a primary or unique column. */
  predicate Fits(c: Column, rows: RowMap, row: Row, exclude: Option<nat>) {
    var v := Get(row, c.name);
    && (c.isPrimary ==> !v.Null?)
    && (IsKey(c) && !v.Null? ==> Excluding(Holders(rows, c.name, KeyOf(v)), exclude) == {})
  }

  /** The error raised for a column the row does not fit. */
  function Violation(c: Column, row: Row): Error {
    if c.isPrimary && Get(row, c.name).Null? then NullPrimaryKey(c.name)
    else DuplicateValue(c.name, Get(row, c.name))
  }

  /** The check over the schema in order: the error of the first column the row does
      not fit, or None when it fits every column. */
  function ConstraintErrorIn(cols: seq<Column>, rows: RowMap, row: Row, exclude: Option<nat>): (r: Option<Error>)
    ensures r.None? <==> forall c | c in cols :: Fits(c, rows, row, exclude)
    ensures r.Some? ==> exists i | 0 <= i < |cols| ::
      && !Fits(cols[i], rows, row, exclude) && r.value == Violation(cols[i], row)
      && forall j | 0 <= j < i :: Fits(cols[j], rows, row, exclude)
    decreases |cols|
  {
    if |cols| == 0 then None
    else if !Fits(cols[0], rows, row, exclude) then Some(Violation(cols[0], row))
    else
      var r := ConstraintErrorIn(cols[1..], rows, row, exclude);
      assert forall c | c in cols :: c == cols[0] || c in cols[1..];
      if r.Some? then
        ghost var i :| 0 <= i < |cols| - 1 && !Fits(cols[1..][i], rows, row, exclude) && r.value == Violation(cols[1..][i], row)
          && forall j | 0 <= j < i :: Fits(cols[1..][j], rows, row, exclude);
        assert forall j | 0 <= j < i + 1 :: Fits(cols[j], rows, row, exclude) by {
          forall j | 0 < j < i + 1 ensures Fits(cols[j], rows, row, exclude) {
            assert cols[j] == cols[1..][j - 1];
          }
        }
        assert cols[i + 1] == cols[1..][i];
        r
      else r
  }

  function ConstraintError(t: TableState, row: Row, exclude: Option<nat>): Option<Error> {
    ConstraintErrorIn(t.schema, t.rows, row, exclude)
  }

  /** A row that passes the check keeps every key column duplicate-free once written under
      `id` (a fresh id for INSERT, the row's own id for UPDATE). */
  lemma CheckedRowKeepsKeysDistinct(t: TableState, row: Row, id: nat, exclude: Option<nat>)
    requires WellFormed(t)
    requires exclude.None? ==> id !in t.rows
    requires exclude.Some? ==> exclude.value == id
    requires ConstraintError(t, row, exclude).None?
    ensures forall n | n in KeyNames(t.schema) :: DistinctValues(t.rows[id := row], n)
    ensures forall c | c in t.schema && c.isPrimary :: !Get(row, c.name).Null?
  {
    forall n | n in KeyNames(t.schema) ensures DistinctValues(t.rows[id := row], n) {
      var c :| c in t.schema && IsKey(c) && c.name == n;
      assert Fits(c, t.rows, row, exclude);
      DistinctAfterPut(t.rows, n, id, row);
    }
  }

  // ---------------------------------------------------------------------------
  // WHERE (`_apply_where_clause`)
  // ---------------------------------------------------------------------------

  /** One condition, with Python's `==` on the row's value (None when the column is absent). */
  predicate Holds(row: Row, c: Condition) {
    match c.op
    case Eq => Equal(Get(row, c.column), c.value)
    case Ne => !Equal(Get(row, c.column), c.value)
  }

  predicate HoldsAll(row: Row, conds: seq<Condition>) {
    forall i | 0 <= i < |conds| :: Holds(row, conds[i])
  }

  lemma HoldsAllSingle(row: Row, c: Condition)
    ensures HoldsAll(row, [c]) == Holds(row, c)
  {
    assert [c][0] == c;
  }

  /** The first equality condition on an indexed column: the one the index answers. */
  function IndexedCondition(conds: seq<Condition>, keys: set<string>): (r: Option<Condition>)
    ensures r.Some? ==> r.value in conds && r.value.op == Eq && r.value.column in keys
    ensures r.None? ==> forall i | 0 <= i < |conds| :: conds[i].op == Ne || conds[i].column !in keys
  {
    if |conds| == 0 then None
    else if conds[0].op == Eq && conds[0].column in keys then Some(conds[0])
    else IndexedCondition(conds[1..], keys)
  }

  /** The rows of `rows` whose ids the index over `column` holds for `v`. */
  function IndexLookup(rows: RowMap, column: string, v: Value): RowMap {
    map id | id in Holders(rows, column, KeyOf(v)) :: rows[id]
  }

  /** The full scan: the rows satisfying every condition. */
  function Scan(rows: RowMap, conds: seq<Condition>): RowMap {
    map id | id in rows && HoldsAll(rows[id], conds) :: rows[id]
  }

  /** `_apply_where_clause`: every row without conditions; otherwise the index answer for
      the first indexed equality alone, ignoring every other condition; otherwise a scan. */
  function FilterRows(t: TableState, where: Option<seq<Condition>>): (r: RowMap)
    ensures forall id | id in r :: id in t.rows && r[id] == t.rows[id]
  {
    if where.None? || |where.value| == 0 then t.rows
    else match IndexedCondition(where.value, KeyNames(t.schema))
      case Some(c) => IndexLookup(t.rows, c.column, c.value)
      case None => Scan(t.rows, where.value)
  }

  /** For a non-null value the index answers exactly what a scan for the equality would. */
  lemma IndexLookupAgreesWithScan(rows: RowMap, c: Condition)
    requires c.op == Eq && !c.value.Null?
    ensures IndexLookup(rows, c.column, c.value) == Scan(rows, [c])
  {
    NullKeyOnlyForNull(c.value);
    forall id | id in rows ensures (id in Holders(rows, c.column, KeyOf(c.value))) <==> HoldsAll(rows[id], [c]) {
      HoldsAllSingle(rows[id], c);
    }
  }

  /** `WHERE col = NULL` on an indexed column finds nothing, although a scan would find
      every row whose value is None. */
  lemma IndexLookupOfNullFindsNothing(rows: RowMap, c: Condition)
    requires c.op == Eq && c.value.Null?
    ensures IndexLookup(rows, c.column, c.value) == map[]
    ensures forall id | id in rows :: id in Scan(rows, [c]) <==> Get(rows[id], c.column).Null?
  {
    NullKeyOnlyForNull(c.value);
    assert Holders(rows, c.column, KeyOf(c.value)) == {};
    forall id | id in rows ensures id in Scan(rows, [c]) <==> Get(rows[id], c.column).Null? {
      HoldsAllSingle(rows[id], c);
      NullKeyOnlyForNull(Get(rows[id], c.column));
    }
  }

  /** Every row the filter returns satisfies the indexed condition, or every condition
      when no condition is indexed. */
  lemma FilterRowsSound(t: TableState, conds: seq<Condition>)
    requires |conds| > 0
    ensures IndexedCondition(conds, KeyNames(t.schema)).None? ==>
      forall id | id in FilterRows(t, Some(conds)) :: HoldsAll(t.rows[id], conds)
    ensures IndexedCondition(conds, KeyNames(t.schema)).Some? ==>
      forall id | id in FilterRows(t, Some(conds)) :: Holds(t.rows[id], IndexedCondition(conds, KeyNames(t.schema)).value)
  {
    match IndexedCondition(conds, KeyNames(t.schema))
    case None =>
    case Some(c) =>
      forall id | id in FilterRows(t, Some(conds)) ensures Holds(t.rows[id], c) {
        assert id in Holders(t.rows, c.column, KeyOf(c.value));
      }
  }

  /** No row satisfying every condition is missed unless the indexed equality compares
      with NULL. */
  lemma FilterRowsComplete(t: TableState, conds: seq<Condition>)
    requires forall i | 0 <= i < |conds| :: conds[i].op == Eq && conds[i].column in KeyNames(t.schema) ==> !conds[i].value.Null?
    ensures forall id | id in t.rows && HoldsAll(t.rows[id], conds) :: id in FilterRows(t, Some(conds))
  {
    if |conds| > 0 {
      match IndexedCondition(conds, KeyNames(t.schema))
      case None =>
      case Some(c) =>
        var i :| 0 <= i < |conds| && conds[i] == c;
        forall id | id in t.rows && HoldsAll(t.rows[id], conds) ensures id in Holders(t.rows, c.column, KeyOf(c.value)) {
          assert Holds(t.rows[id], conds[i]);
          NullKeyOnlyForNull(c.value);
        }
    }
  }

  // ---------------------------------------------------------------------------
  // SELECT
  // ---------------------------------------------------------------------------

  /** The ids of `m` in `[lo, hi)`, ascending. */
  function IdsFrom(m: RowMap, lo: nat, hi: nat): (ids: seq<nat>)
    ensures forall i | 0 <= i < |ids| :: ids[i] in m && lo <= ids[i] < hi
    ensures forall id | id in m && lo <= id < hi :: id in ids
    ensures forall i, j | 0 <= i < j < |ids| :: ids[i] < ids[j]
    decreases hi - lo
  {
    if lo >= hi then []
    else
      var rest := IdsFrom(m, lo + 1, hi);
      if lo in m then [lo] + rest else rest
  }

  /** The ids of `m` below `hi`, ascending: the order Python visits the rows in. */
  function AscendingIds(m: RowMap, hi: nat): seq<nat> {
    IdsFrom(m, 0, hi)
  }

  /** `SELECT *` names the schema's columns, anything else is taken as written. */
  function SelectedColumns(schema: seq<Column>, projection: seq<string>): seq<string> {
    if projection == ["*"] then ColumnNames(schema) else projection
  }

  /** One result row: the selected columns of the row, or the first one it lacks. */
  function ProjectRow(row: Row, cols: seq<string>): (r: Result<Row>)
    ensures r.Ok? <==> forall n | n in cols :: n in row
    ensures r.Ok? ==> r.value == map n | n in row && n in cols :: row[n]
    ensures r.Err? ==> r.error.UnknownColumn? && r.error.column in cols && r.error.column !in row
  {
    if |cols| == 0 then Ok(map[])
    else if cols[0] !in row then Err(UnknownColumn(cols[0]))
    else match ProjectRow(row, cols[1..])
      case Err(e) => Err(e)
      case Ok(m) =>
        assert forall n | n in cols :: n == cols[0] || n in cols[1..];
        Ok(m[cols[0] := row[cols[0]]])
  }

  /** The error names the first selected column the row lacks. */
  lemma {:induction false} ProjectRowFirstMissing(row: Row, cols: seq<string>, i: nat)
    requires i < |cols| && cols[i] !in row
    requires forall k | 0 <= k < i :: cols[k] in row
    ensures ProjectRow(row, cols) == Err(UnknownColumn(cols[i]))
    decreases i
  {
    if i > 0 {
      forall k | 0 <= k < i - 1 ensures cols[1..][k] in row {
        assert cols[1..][k] == cols[k + 1];
      }
      ProjectRowFirstMissing(row, cols[1..], i - 1);
    }
  }

  /** The result rows for the ids in order; the first failing row raises. */
  function ProjectRows(rows: RowMap, ids: seq<nat>, cols: seq<string>): (r: Result<seq<Row>>)
    requires forall i | 0 <= i < |ids| :: ids[i] in rows
    ensures r.Ok? <==> forall i | 0 <= i < |ids| :: ProjectRow(rows[ids[i]], cols).Ok?
    ensures r.Ok? ==> |r.value| == |ids| && forall i | 0 <= i < |ids| :: r.value[i] == ProjectRow(rows[ids[i]], cols).value
    decreases |ids|
  {
    if |ids| == 0 then Ok([])
    else match ProjectRow(rows[ids[0]], cols)
      case Err(e) => Err(e)
      case Ok(row) =>
        match ProjectRows(rows, ids[1..], cols)
        case Err(e) =>
          assert exists i | 0 <= i < |ids| :: ProjectRow(rows[ids[i]], cols).Err? by {
            var k :| 0 <= k < |ids| - 1 && ProjectRow(rows[ids[1..][k]], cols).Err?;
            assert ids[1..][k] == ids[k + 1];
          }
          Err(e)
        case Ok(rest) =>
          assert forall i | 1 <= i < |ids| :: ids[i] == ids[1..][i - 1];
          Ok([row] + rest)
  }

  /** The projection of the ids from `id` on is that of row `id`, when it is matched, in
      front of the projection of the ids after it. */
  lemma ProjectRowsUnroll(m: RowMap, id: nat, hi: nat, cols: seq<string>, done: seq<Row>)
    requires id < hi
    ensures id !in m ==> ProjectRows(m, IdsFrom(m, id, hi), cols) == ProjectRows(m, IdsFrom(m, id + 1, hi), cols)
    ensures id in m ==>
              Prepend(done, ProjectRows(m, IdsFrom(m, id, hi), cols)) ==
              (match ProjectRow(m[id], cols)
               case Err(e) => Err(e)
               case Ok(row) => Prepend(done + [row], ProjectRows(m, IdsFrom(m, id + 1, hi), cols)))
  {
    var rest := IdsFrom(m, id + 1, hi);
    if id in m {
      assert IdsFrom(m, id, hi) == [id] + rest;
      assert ([id] + rest)[1..] == rest;
      match ProjectRow(m[id], cols)
      case Err(e) =>
      case Ok(row) =>
        var after := ProjectRows(m, rest, cols);
        if after.Ok? {
          assert done + ([row] + after.value) == (done + [row]) + after.value;
        }
    } else {
      assert IdsFrom(m, id, hi) == rest;
    }
  }

  /** On a well-formed table the projection fails exactly when some row is selected and a
      selected column is not in the schema: an unknown column goes unnoticed when no row
      matches. */
  lemma ProjectRowsFailsOnlyWithRows(t: TableState, ids: seq<nat>, cols: seq<string>)
    requires WellFormed(t)
    requires forall i | 0 <= i < |ids| :: ids[i] in t.rows
    ensures ProjectRows(t.rows, ids, cols).Err? <==> |ids| > 0 && exists n | n in cols :: n !in SchemaNames(t.schema)
  {
    if |ids| > 0 {
      assert t.rows[ids[0]].Keys == SchemaNames(t.schema);
      if ProjectRows(t.rows, ids, cols).Err? {
        var i :| 0 <= i < |ids| && ProjectRow(t.rows[ids[i]], cols).Err?;
        assert t.rows[ids[i]].Keys == SchemaNames(t.schema);
      }
    }
  }

  // ---------------------------------------------------------------------------
  // JOIN (`_execute_join`)
  // ---------------------------------------------------------------------------

  /** `{f"{table}.{k}": v for k, v in row.items()}`. */
  function Qualified(table: string, row: Row): Row {
    QualifiedNamesDistinct(table);
    map k | k in row :: table + "." + k := row[k]
  }

  /** Distinct columns get distinct qualified names. */
  lemma QualifiedNamesDistinct(table: string)
    ensures forall k1, k2 | table + "." + k1 == table + "." + k2 :: k1 == k2
  {
    forall k1: string, k2: string | table + "." + k1 == table + "." + k2 ensures k1 == k2 {
      QualifiedNameSuffix(table, k1);
      QualifiedNameSuffix(table, k2);
    }
  }

  /** The column name can be read back from its qualified name. */
  lemma QualifiedNameSuffix(table: string, k: string)
    ensures (table + "." + k)[|table| + 1..] == k
  {
  }

  /** The qualified row holds each column under `<table>.<column>` with its value, and
      nothing else. */
  lemma QualifiedEntries(table: string, row: Row)
    ensures forall k | k in row :: table + "." + k in Qualified(table, row) && Qualified(table, row)[table + "." + k] == row[k]
    ensures forall q | q in Qualified(table, row) :: exists k | k in row :: q == table + "." + k
  {
    forall k | k in row
      ensures table + "." + k in Qualified(table, row) && Qualified(table, row)[table + "." + k] == row[k]
    {
      QualifiedNamesDistinct(table);
    }
  }

  /** The merged row; on a self-join the right row's entries overwrite the left's. */
  function Merge(leftTable: string, l: Row, rightTable: string, r: Row): Row {
    Qualified(leftTable, l) + Qualified(rightTable, r)
  }

  /** The merged rows for one left row against the right rows with ids `rightIds`, in that
      order: the nested loop's inner loop. */
  function JoinMatches(leftTable: string, l: Row, leftColumn: string, rightTable: string, right: RowMap,
                       rightIds: seq<nat>, rightColumn: string): seq<Row>
    requires forall i | 0 <= i < |rightIds| :: rightIds[i] in right
    decreases |rightIds|
  {
    if |rightIds| == 0 then []
    else
      var r := right[rightIds[0]];
      (if Equal(Get(r, rightColumn), Get(l, leftColumn)) then [Merge(leftTable, l, rightTable, r)] else [])
      + JoinMatches(leftTable, l, leftColumn, rightTable, right, rightIds[1..], rightColumn)
  }

  /** The nested-loop join: each left row with a non-null join value, in order, against
      every right row in order. */
  function NestedJoin(leftTable: string, left: RowMap, leftIds: seq<nat>, leftColumn: string,
                      rightTable: string, right: RowMap, rightIds: seq<nat>, rightColumn: string): seq<Row>
    requires forall i | 0 <= i < |leftIds| :: leftIds[i] in left
    requires forall i | 0 <= i < |rightIds| :: rightIds[i] in right
    decreases |leftIds|
  {
    if |leftIds| == 0 then []
    else
      var l := left[leftIds[0]];
      (if Get(l, leftColumn).Null? then [] else JoinMatches(leftTable, l, leftColumn, rightTable, right, rightIds, rightColumn))
      + NestedJoin(leftTable, left, leftIds[1..], leftColumn, rightTable, right, rightIds, rightColumn)
  }

  /** A loop that emits `m` in front of the rest keeps `done + rest` equal to its goal. */
  lemma EmitStep<T>(goal: seq<T>, done: seq<T>, m: seq<T>, rest: seq<T>)
    requires goal == done + (m + rest)
    ensures goal == (done + m) + rest
  {
  }

  /** What the inner loop emits for the right id `id`: the merge with row `id` when it is
      stored and its value equals the left row's. */
  function MatchAt(leftTable: string, l: Row, leftColumn: string, rightTable: string, right: RowMap,
                   id: nat, rightColumn: string): seq<Row>
  {
    if id in right && Equal(Get(right[id], rightColumn), Get(l, leftColumn)) then [Merge(leftTable, l, rightTable, right[id])]
    else []
  }

  /** The inner loop over the right ids from `id` on: what it emits for `id`, then the
      rest. */
  lemma JoinMatchesUnroll(leftTable: string, l: Row, leftColumn: string, rightTable: string, right: RowMap,
                          id: nat, hi: nat, rightColumn: string)
    requires id < hi
    ensures JoinMatches(leftTable, l, leftColumn, rightTable, right, IdsFrom(right, id, hi), rightColumn)
            == MatchAt(leftTable, l, leftColumn, rightTable, right, id, rightColumn)
               + JoinMatches(leftTable, l, leftColumn, rightTable, right, IdsFrom(right, id + 1, hi), rightColumn)
  {
    var ids := IdsFrom(right, id + 1, hi);
    if id in right {
      assert IdsFrom(right, id, hi) == [id] + ids;
      JoinMatchesCons(leftTable, l, leftColumn, rightTable, right, id, ids, rightColumn);
    } else {
      JoinMatchesSkip(leftTable, l, leftColumn, rightTable, right, id, hi, rightColumn);
    }
  }

  /** An id that is not stored emits nothing. */
  lemma JoinMatchesSkip(leftTable: string, l: Row, leftColumn: string, rightTable: string, right: RowMap,
                        id: nat, hi: nat, rightColumn: string)
    requires id < hi && id !in right
    ensures JoinMatches(leftTable, l, leftColumn, rightTable, right, IdsFrom(right, id, hi), rightColumn)
            == MatchAt(leftTable, l, leftColumn, rightTable, right, id, rightColumn)
               + JoinMatches(leftTable, l, leftColumn, rightTable, right, IdsFrom(right, id + 1, hi), rightColumn)
  {
    assert IdsFrom(right, id, hi) == IdsFrom(right, id + 1, hi);
    assert MatchAt(leftTable, l, leftColumn, rightTable, right, id, rightColumn) == [];
  }

  /** The inner loop over `[id] + ids`: what it emits for `id`, then the rest. */
  lemma JoinMatchesCons(leftTable: string, l: Row, leftColumn: string, rightTable: string, right: RowMap,
                        id: nat, ids: seq<nat>, rightColumn: string)
    requires id in right
    requires forall i | 0 <= i < |ids| :: ids[i] in right
    ensures JoinMatches(leftTable, l, leftColumn, rightTable, right, [id] + ids, rightColumn)
            == MatchAt(leftTable, l, leftColumn, rightTable, right, id, rightColumn)
               + JoinMatches(leftTable, l, leftColumn, rightTable, right, ids, rightColumn)
  {
    assert ([id] + ids)[1..] == ids;
  }

  /** The outer loop over the left ids from `id` on: the matches of row `id`, when it is
      stored and its join value is not None, then the rest. */
  lemma NestedJoinUnroll(leftTable: string, left: RowMap, id: nat, hi: nat, leftColumn: string,
                         rightTable: string, right: RowMap, rightIds: seq<nat>, rightColumn: string)
    requires id < hi
    requires forall i | 0 <= i < |rightIds| :: rightIds[i] in right
    ensures var here := NestedJoin(leftTable, left, IdsFrom(left, id, hi), leftColumn, rightTable, right, rightIds, rightColumn);
      var rest := NestedJoin(leftTable, left, IdsFrom(left, id + 1, hi), leftColumn, rightTable, right, rightIds, rightColumn);
      && (id !in left || Get(left[id], leftColumn).Null? ==> here == rest)
      && (id in left && !Get(left[id], leftColumn).Null? ==>
            here == JoinMatches(leftTable, left[id], leftColumn, rightTable, right, rightIds, rightColumn) + rest)
  {
    var ids := IdsFrom(left, id + 1, hi);
    if id in left {
      assert IdsFrom(left, id, hi) == [id] + ids;
      assert ([id] + ids)[1..] == ids;
    } else {
      assert IdsFrom(left, id, hi) == ids;
    }
  }

  /** Against a column with distinct values the inner loop finds exactly the row the index
      holds for the left value, so the index path and the nested loop agree. */
  lemma {:induction false} JoinMatchesByIndex(leftTable: string, l: Row, leftColumn: string, rightTable: string,
                                              right: RowMap, rightIds: seq<nat>, rightColumn: string)
    requires DistinctValues(right, rightColumn)
    requires !Get(l, leftColumn).Null?
    requires forall i | 0 <= i < |rightIds| :: rightIds[i] in right
    requires forall i, j | 0 <= i < j < |rightIds| :: rightIds[i] < rightIds[j]
    ensures var h := Holders(right, rightColumn, KeyOf(Get(l, leftColumn)));
      var m := JoinMatches(leftTable, l, leftColumn, rightTable, right, rightIds, rightColumn);
      && (forall id | id in h && id in rightIds :: m == [Merge(leftTable, l, rightTable, right[id])])
      && ((forall id | id in h :: id !in rightIds) ==> m == [])
    decreases |rightIds|
  {
    var lv := Get(l, leftColumn);
    var h := Holders(right, rightColumn, KeyOf(lv));
    NullKeyOnlyForNull(lv);
    if |rightIds| > 0 {
      var id0 := rightIds[0];
      JoinMatchesByIndex(leftTable, l, leftColumn, rightTable, right, rightIds[1..], rightColumn);
      assert Equal(Get(right[id0], rightColumn), lv) <==> id0 in h;
      forall id | id in rightIds[1..] ensures id != id0 {
      }
      if id0 in h {
        HoldersAtMostOne(right, rightColumn, KeyOf(lv));
        assert forall id | id in h :: id == id0 by {
          forall id | id in h ensures id == id0 {
            assert {id, id0} <= h;
            SubsetCardinality({id, id0}, h);
          }
        }
      }
      forall id | id in rightIds ensures id == id0 || id in rightIds[1..] {
      }
    }
  }

  /** The index path for one left row: searching the reference index of a key column of a
      well-formed table finds at most one id, a stored non-empty row whose merge is what the
      nested loop emits, and finding none means the nested loop emits nothing. */
  lemma IndexJoin(leftTable: string, l: Row, leftColumn: string, rightTable: string, t: TableState,
                  rightColumn: string)
    requires WellFormed(t) && rightColumn in KeyNames(t.schema) && !Get(l, leftColumn).Null?
    ensures var h := SearchIn(BucketsOf(t.rows, rightColumn), Get(l, leftColumn));
      var m := JoinMatches(leftTable, l, leftColumn, rightTable, t.rows, AscendingIds(t.rows, t.nextRowId), rightColumn);
      && (h == {} ==> m == [])
      && (forall id | id in h :: h == {id} && id in t.rows && t.rows[id] != map[] && m == [Merge(leftTable, l, rightTable, t.rows[id])])
  {
    forall id | id in t.rows ensures rightColumn in t.rows[id] {
      var c :| c in t.schema && IsKey(c) && c.name == rightColumn;
      assert c.name in SchemaNames(t.schema);
    }
    BucketsOfSearch(t.rows, rightColumn, Get(l, leftColumn));
    IndexJoinRows(leftTable, l, leftColumn, rightTable, t.rows, t.nextRowId, rightColumn);
  }

  /** `IndexJoin` over the rows alone: a column with distinct values that every row
      holds. */
  lemma IndexJoinRows(leftTable: string, l: Row, leftColumn: string, rightTable: string, rows: RowMap,
                      hi: nat, rightColumn: string)
    requires DistinctValues(rows, rightColumn) && !Get(l, leftColumn).Null?
    requires forall id | id in rows :: rightColumn in rows[id]
    requires forall id | id in rows :: id < hi
    ensures var h := Holders(rows, rightColumn, KeyOf(Get(l, leftColumn)));
      var m := JoinMatches(leftTable, l, leftColumn, rightTable, rows, AscendingIds(rows, hi), rightColumn);
      && (h == {} ==> m == [])
      && (forall id | id in h :: h == {id} && id in rows && rows[id] != map[] && m == [Merge(leftTable, l, rightTable, rows[id])])
  {
    var h := Holders(rows, rightColumn, KeyOf(Get(l, leftColumn)));
    var ids := AscendingIds(rows, hi);
    HoldersAtMostOne(rows, rightColumn, KeyOf(Get(l, leftColumn)));
    JoinMatchesByIndex(leftTable, l, leftColumn, rightTable, rows, ids, rightColumn);
    forall id | id in h
      ensures h == {id} && id in ids
    {
      forall x | x in h ensures x == id {
        SubsetCardinality({x, id}, h);
      }
    }
  }

  /** The inner loop emits, in order, the merge with each right row whose value equals
      the left row's. */
  lemma {:induction false} JoinMatchesMembers(leftTable: string, l: Row, leftColumn: string, rightTable: string,
                                              right: RowMap, rightIds: seq<nat>, rightColumn: string)
    requires forall i | 0 <= i < |rightIds| :: rightIds[i] in right
    ensures forall m :: m in JoinMatches(leftTable, l, leftColumn, rightTable, right, rightIds, rightColumn) <==>
      exists j | 0 <= j < |rightIds| :: Equal(Get(right[rightIds[j]], rightColumn), Get(l, leftColumn))
                                         && m == Merge(leftTable, l, rightTable, right[rightIds[j]])
    decreases |rightIds|
  {
    if |rightIds| > 0 {
      JoinMatchesMembers(leftTable, l, leftColumn, rightTable, right, rightIds[1..], rightColumn);
      forall j | 1 <= j < |rightIds| ensures rightIds[j] == rightIds[1..][j - 1] {
      }
    }
  }

  /** Every joined row merges a left row with a non-null join value and a right row whose
      value equals it, and every such pair is joined. */
  lemma {:induction false} NestedJoinMembers(leftTable: string, left: RowMap, leftIds: seq<nat>, leftColumn: string,
                                             rightTable: string, right: RowMap, rightIds: seq<nat>, rightColumn: string)
    requires forall i | 0 <= i < |leftIds| :: leftIds[i] in left
    requires forall i | 0 <= i < |rightIds| :: rightIds[i] in right
    ensures forall m :: m in NestedJoin(leftTable, left, leftIds, leftColumn, rightTable, right, rightIds, rightColumn) <==>
      exists i, j | 0 <= i < |leftIds| && 0 <= j < |rightIds| ::
        && !Get(left[leftIds[i]], leftColumn).Null?
        && Equal(Get(right[rightIds[j]], rightColumn), Get(left[leftIds[i]], leftColumn))
        && m == Merge(leftTable, left[leftIds[i]], rightTable, right[rightIds[j]])
    decreases |leftIds|
  {
    if |leftIds| > 0 {
      NestedJoinMembers(leftTable, left, leftIds[1..], leftColumn, rightTable, right, rightIds, rightColumn);
      JoinMatchesMembers(leftTable, left[leftIds[0]], leftColumn, rightTable, right, rightIds, rightColumn);
      forall i | 1 <= i < |leftIds| ensures leftIds[i] == leftIds[1..][i - 1] {
      }
    }
  }

  // ---------------------------------------------------------------------------
  // Writing values into a row (INSERT's zip loop, UPDATE's SET loop)
  // ---------------------------------------------------------------------------

  /** The check of one `(column, value)` pair: the column must exist and take the value. */
  function PairError(schema: seq<Column>, p: (string, Value)): Option<Error> {
    match FindColumn(schema, p.0)
    case None => Some(UnknownColumn(p.0))
    case Some(c) => if ValidateValue(c, p.1) then None else Some(TypeMismatch(p.0, c.dtype))
  }

  /** The row with the pairs written in order, or the error of the first pair that fails. */
  function Written(schema: seq<Column>, row: Row, pairs: seq<(string, Value)>): (r: Result<Row>)
    ensures r.Ok? <==> forall i | 0 <= i < |pairs| :: PairError(schema, pairs[i]).None?
    ensures r.Err? ==> exists i | 0 <= i < |pairs| ::
      PairError(schema, pairs[i]) == Some(r.error) && forall j | 0 <= j < i :: PairError(schema, pairs[j]).None?
    ensures r.Ok? ==> forall n :: n in r.value <==> n in row || Lookup(pairs, n).Some?
    ensures r.Ok? ==> r.value.Keys <= row.Keys + SchemaNames(schema)
    ensures r.Ok? && RowValid(schema, row) ==> RowValid(schema, r.value)
    decreases |pairs|
  {
    if |pairs| == 0 then Ok(row)
    else match PairError(schema, pairs[0])
      case Some(e) => Err(e)
      case None =>
        var r := Written(schema, row[pairs[0].0 := pairs[0].1], pairs[1..]);
        assert forall j | 1 <= j < |pairs| :: pairs[j] == pairs[1..][j - 1];
        assert pairs[0].0 in SchemaNames(schema);
        if r.Err? then
          ghost var i :| 0 <= i < |pairs| - 1 && PairError(schema, pairs[1..][i]) == Some(r.error)
            && forall j | 0 <= j < i :: PairError(schema, pairs[1..][j]).None?;
          assert PairError(schema, pairs[i + 1]) == Some(r.error);
          r
        else r
  }

  /** Written pairs that name distinct columns give each its value and leave the rest of
      the row alone; the written values validate so the row stays valid. */
  lemma {:induction false} WrittenValues(schema: seq<Column>, row: Row, pairs: seq<(string, Value)>)
    requires Written(schema, row, pairs).Ok?
    ensures DistinctColumns(pairs) ==> forall n | n in Written(schema, row, pairs).value ::
      Written(schema, row, pairs).value[n] == match Lookup(pairs, n) case Some(v) => v case None => row[n]
    decreases |pairs|
  {
    if |pairs| > 0 {
      var row2 := row[pairs[0].0 := pairs[0].1];
      WrittenValues(schema, row2, pairs[1..]);
    }
  }

  /** Python's `zip(col_names, values)` on lists of the same length. */
  function Zip(names: seq<string>, values: seq<Value>): (pairs: seq<(string, Value)>)
    requires |names| == |values|
    ensures |pairs| == |names| && forall i | 0 <= i < |names| :: pairs[i] == (names[i], values[i])
  {
    seq(|names|, i requires 0 <= i < |names| => (names[i], values[i]))
  }

  /** The fill loop: every schema column the row lacks becomes None. */
  function WithNulls(schema: seq<Column>, row: Row): (r: Row)
    ensures r.Keys == row.Keys + SchemaNames(schema)
    ensures forall n | n in r :: r[n] == if n in row then row[n] else Null
  {
    map n | n in row.Keys + SchemaNames(schema) :: if n in row then row[n] else Null
  }

  /** One more column of the fill loop: None is added under its name unless the row
      already has that key. */
  lemma WithNullsSnoc(schema: seq<Column>, j: nat, row: Row)
    requires j < |schema|
    ensures var before := WithNulls(schema[..j], row);
      WithNulls(schema[..j + 1], row) == if schema[j].name in before then before else before[schema[j].name := Null]
  {
    assert SchemaNames(schema[..j + 1]) == SchemaNames(schema[..j]) + {schema[j].name} by {
      assert forall c | c in schema[..j + 1] :: c == schema[j] || c in schema[..j];
      assert forall c | c in schema[..j] :: c in schema[..j + 1];
    }
  }

  // ---------------------------------------------------------------------------
  // INSERT, UPDATE, DELETE on one table
  // ---------------------------------------------------------------------------

  /** A table after a statement, with the row-id or the count it returned, or its error. */
  datatype Step = Step(table: TableState, result: Result<nat>)

  /** A row that may be stored: it has exactly the schema's columns, every value validates,
      and it passes the constraint check against the rows other than `exclude`. */
  predicate Admissible(t: TableState, row: Row, exclude: Option<nat>) {
    row.Keys == SchemaNames(t.schema) && RowValid(t.schema, row) && ConstraintError(t, row, exclude).None?
  }

  /** The column names an INSERT fills: its list when non-empty, else the whole schema. */
  function InsertNames(schema: seq<Column>, columns: Option<seq<string>>): seq<string> {
    if columns.Some? && |columns.value| > 0 then columns.value else ColumnNames(schema)
  }

  /** The completed row an INSERT would store, or the error it raises first. */
  function InsertedRow(t: TableState, columns: Option<seq<string>>, values: seq<Value>): (r: Result<Row>)
    ensures r.Ok? ==> Admissible(t, r.value, None)
    ensures |InsertNames(t.schema, columns)| != |values| ==> r == Err(ArityMismatch(|InsertNames(t.schema, columns)|, |values|))
  {
    var names := InsertNames(t.schema, columns);
    if |names| != |values| then Err(ArityMismatch(|names|, |values|))
    else match Written(t.schema, map[], Zip(names, values))
      case Err(e) => Err(e)
      case Ok(row) =>
        var full := WithNulls(t.schema, row);
        match ConstraintError(t, full, None)
        case Some(e) => Err(e)
        case None => Ok(full)
  }

  /** `_execute_insert`: the row is stored under `next_row_id`, which is returned and advanced. */
  function InsertSpec(t: TableState, columns: Option<seq<string>>, values: seq<Value>): Step {
    match InsertedRow(t, columns, values)
    case Err(e) => Step(t, Err(e))
    case Ok(row) => Step(TableState(t.schema, t.rows[t.nextRowId := row], t.nextRowId + 1), Ok(t.nextRowId))
  }

  /** An INSERT whose row is complete stores it under `next_row_id`. */
  lemma InsertSpecStores(t: TableState, columns: Option<seq<string>>, values: seq<Value>, row: Row)
    requires InsertedRow(t, columns, values) == Ok(row)
    ensures Admissible(t, row, None)
    ensures InsertSpec(t, columns, values) == Step(TableState(t.schema, t.rows[t.nextRowId := row], t.nextRowId + 1), Ok(t.nextRowId))
  {
  }

  /** A successful INSERT adds exactly one row, under an id above every existing one, whose
      columns are the schema's; a failed one changes nothing. */
  lemma InsertOutcome(t: TableState, columns: Option<seq<string>>, values: seq<Value>)
    requires forall id | id in t.rows :: id < t.nextRowId
    ensures var st := InsertSpec(t, columns, values);
      && (st.result.Err? ==> st.table == t)
      && (st.result.Ok? ==>
            && st.result.value == t.nextRowId
            && (forall id | id in t.rows :: id < st.result.value)
            && st.table.nextRowId == t.nextRowId + 1
            && st.table.rows.Keys == t.rows.Keys + {st.result.value}
            && (forall id | id in t.rows :: st.table.rows[id] == t.rows[id])
            && st.table.rows[st.result.value].Keys == SchemaNames(t.schema))
  {
  }

  /** Storing a checked row with the schema's columns under a fresh id or under its own id
      keeps the table invariant. */
  lemma PutPreservesWellFormed(t: TableState, id: nat, row: Row, exclude: Option<nat>, next: nat)
    requires WellFormed(t)
    requires exclude.None? ==> id !in t.rows
    requires exclude.Some? ==> exclude.value == id
    requires 1 <= id < next && t.nextRowId <= next
    requires Admissible(t, row, exclude)
    ensures WellFormed(TableState(t.schema, t.rows[id := row], next))
  {
    CheckedRowKeepsKeysDistinct(t, row, id, exclude);
  }

  /** INSERT keeps the table invariant. */
  lemma InsertPreservesWellFormed(t: TableState, columns: Option<seq<string>>, values: seq<Value>)
    requires WellFormed(t)
    ensures WellFormed(InsertSpec(t, columns, values).table)
  {
    match InsertedRow(t, columns, values)
    case Err(_) =>
    case Ok(row) =>
      PutPreservesWellFormed(t, t.nextRowId, row, None, t.nextRowId + 1);
  }

  /** One row of UPDATE: the assignments are written over the stored row, which must then
      pass the check against the other rows before it replaces the stored one. Only the
      row changes. */
  function RewriteRow(t: TableState, id: nat, assigns: seq<(string, Value)>): (r: Result<TableState>)
    requires id in t.rows
    ensures r.Ok? ==> r.value.schema == t.schema && r.value.nextRowId == t.nextRowId
    ensures r.Ok? ==> r.value.rows.Keys == t.rows.Keys
  {
    match Written(t.schema, t.rows[id], assigns)
    case Err(e) => Err(e)
    case Ok(row) =>
      match ConstraintError(t, row, Some(id))
      case Some(e) => Err(e)
      case None => Ok(TableState(t.schema, t.rows[id := row], t.nextRowId))
  }

  /** UPDATE's loop over the matched ids: each row is rewritten in turn; the first failure
      stops the loop with the earlier rows already rewritten. */
  function UpdateLoop(t: TableState, ids: seq<nat>, assigns: seq<(string, Value)>, count: nat): Step
    requires forall i | 0 <= i < |ids| :: ids[i] in t.rows
    decreases |ids|
  {
    if |ids| == 0 then Step(t, Ok(count))
    else
      match RewriteRow(t, ids[0], assigns)
      case Err(e) => Step(t, Err(e))
      case Ok(t2) => UpdateLoop(t2, ids[1..], assigns, count + 1)
  }

  /** `_execute_update`: the matched ids are fixed before any row changes. */
  function UpdateSpec(t: TableState, assigns: seq<(string, Value)>, where: Option<seq<Condition>>): Step {
    UpdateLoop(t, AscendingIds(FilterRows(t, where), t.nextRowId), assigns, 0)
  }

  /** One turn of UPDATE's loop over the matched ids in `[id, hi)`: an unmatched id is
      passed over, a matched one is rewritten, and a failure ends the loop. */
  lemma UpdateLoopUnroll(t: TableState, m: RowMap, id: nat, hi: nat, assigns: seq<(string, Value)>, count: nat)
    requires id < hi
    requires forall x | x in m :: x in t.rows
    ensures id !in m ==> UpdateLoop(t, IdsFrom(m, id, hi), assigns, count) == UpdateLoop(t, IdsFrom(m, id + 1, hi), assigns, count)
    ensures id in m ==>
              UpdateLoop(t, IdsFrom(m, id, hi), assigns, count) ==
              (match RewriteRow(t, id, assigns)
               case Err(e) => Step(t, Err(e))
               case Ok(t2) => UpdateLoop(t2, IdsFrom(m, id + 1, hi), assigns, count + 1))
  {
    var rest := IdsFrom(m, id + 1, hi);
    if id in m {
      assert IdsFrom(m, id, hi) == [id] + rest;
      assert ([id] + rest)[1..] == rest;
    } else {
      assert IdsFrom(m, id, hi) == rest;
    }
  }

  /** Rewriting one row keeps the table invariant. */
  lemma RewriteRowPreservesWellFormed(t: TableState, id: nat, assigns: seq<(string, Value)>)
    requires WellFormed(t) && id in t.rows
    requires RewriteRow(t, id, assigns).Ok?
    ensures WellFormed(RewriteRow(t, id, assigns).value)
  {
    var row := Written(t.schema, t.rows[id], assigns).value;
    assert row.Keys == SchemaNames(t.schema);
    PutPreservesWellFormed(t, id, row, Some(id), t.nextRowId);
  }

  /** UPDATE keeps the table invariant, keeps the row-ids and the counter, and when it
      succeeds the count is the number of matched rows. */
  lemma {:induction false} UpdateLoopOutcome(t: TableState, ids: seq<nat>, assigns: seq<(string, Value)>, count: nat)
    requires WellFormed(t)
    requires forall i | 0 <= i < |ids| :: ids[i] in t.rows
    ensures var st := UpdateLoop(t, ids, assigns, count);
      && WellFormed(st.table)
      && st.table.schema == t.schema && st.table.nextRowId == t.nextRowId
      && st.table.rows.Keys == t.rows.Keys
      && (st.result.Ok? ==> st.result.value == count + |ids|)
    decreases |ids|
  {
    if |ids| > 0 {
      var r := RewriteRow(t, ids[0], assigns);
      if r.Ok? {
        RewriteRowPreservesWellFormed(t, ids[0], assigns);
        UpdateLoopOutcome(r.value, ids[1..], assigns, count + 1);
      }
    }
  }

  /** A successful UPDATE rewrites exactly the matched rows, each from its own old value. */
  lemma {:induction false} UpdateLoopRewrites(t: TableState, ids: seq<nat>, assigns: seq<(string, Value)>, count: nat)
    requires forall i | 0 <= i < |ids| :: ids[i] in t.rows
    requires forall i, j | 0 <= i < j < |ids| :: ids[i] != ids[j]
    requires UpdateLoop(t, ids, assigns, count).result.Ok?
    ensures var st := UpdateLoop(t, ids, assigns, count);
      && (forall id | id in t.rows && id !in ids :: id in st.table.rows && st.table.rows[id] == t.rows[id])
      && (forall id | id in ids :: Written(t.schema, t.rows[id], assigns).Ok?
                                   && id in st.table.rows
                                   && st.table.rows[id] == Written(t.schema, t.rows[id], assigns).value)
    decreases |ids|
  {
    if |ids| > 0 {
      var id := ids[0];
      var row := Written(t.schema, t.rows[id], assigns).value;
      var t2 := TableState(t.schema, t.rows[id := row], t.nextRowId);
      UpdateLoopRewrites(t2, ids[1..], assigns, count + 1);
      forall i | 1 <= i < |ids| ensures ids[i] != id && ids[i] == ids[1..][i - 1] {
      }
      assert forall x | x in ids :: x == id || x in ids[1..];
    }
  }

  /** DELETE's loop over the matched ids: each row goes and is counted; the schema and
      the counter stay. */
  function DeleteLoop(t: TableState, ids: seq<nat>, count: nat): (r: Step)
    ensures r.table.schema == t.schema && r.table.nextRowId == t.nextRowId
    ensures r.result == Ok(count + |ids|)
    decreases |ids|
  {
    if |ids| == 0 then Step(t, Ok(count))
    else DeleteLoop(TableState(t.schema, t.rows - {ids[0]}, t.nextRowId), ids[1..], count + 1)
  }

  /** `_execute_delete`: the matched ids are fixed, then each of those rows goes. */
  function DeleteSpec(t: TableState, where: Option<seq<Condition>>): Step {
    DeleteLoop(t, AscendingIds(FilterRows(t, where), t.nextRowId), 0)
  }

  /** One turn of DELETE's loop over the matched ids in `[id, hi)`: an unmatched id is
      passed over, a matched one is removed and counted. */
  lemma DeleteLoopUnroll(t: TableState, m: RowMap, id: nat, hi: nat, count: nat)
    requires id < hi
    ensures DeleteLoop(t, IdsFrom(m, id, hi), count) ==
              if id in m then DeleteLoop(TableState(t.schema, t.rows - {id}, t.nextRowId), IdsFrom(m, id + 1, hi), count + 1)
              else DeleteLoop(t, IdsFrom(m, id + 1, hi), count)
  {
    var rest := IdsFrom(m, id + 1, hi);
    if id in m {
      assert IdsFrom(m, id, hi) == [id] + rest;
      assert ([id] + rest)[1..] == rest;
    } else {
      assert IdsFrom(m, id, hi) == rest;
    }
  }

  /** Removing the ids one at a time removes exactly the ids listed. */
  lemma {:induction false} DeleteLoopRemoves(t: TableState, ids: seq<nat>, count: nat)
    ensures DeleteLoop(t, ids, count).table.rows == t.rows - (set id: nat | id in ids)
    decreases |ids|
  {
    if |ids| > 0 {
      var tail := ids[1..];
      DeleteLoopRemoves(TableState(t.schema, t.rows - {ids[0]}, t.nextRowId), tail, count + 1);
      assert ids == [ids[0]] + tail;
      ConsIds(tail, ids[0]);
      assert (t.rows - {ids[0]}) - (set id: nat | id in tail) == t.rows - (set id: nat | id in ids);
    }
  }

  /** An id not yet among `rest` adds one to its size. */
  lemma AddFresh(rest: set<nat>, x: nat)
    requires x !in rest
    ensures |rest + {x}| == |rest| + 1
  {
  }

  /** The ids of `[x] + tail` are those of `tail` and `x`. */
  lemma ConsIds(tail: seq<nat>, x: nat)
    ensures (set id: nat | id in [x] + tail) == (set id: nat | id in tail) + {x}
  {
  }

  /** A strictly ascending sequence holds as many distinct ids as it is long. */
  lemma {:induction false} AscendingCount(ids: seq<nat>)
    requires forall i, j | 0 <= i < j < |ids| :: ids[i] < ids[j]
    ensures |(set id: nat | id in ids)| == |ids|
    decreases |ids|
  {
    if |ids| == 0 {
      assert (set id: nat | id in ids) == {};
    } else {
      var tail := ids[1..];
      assert ids == [ids[0]] + tail;
      AscendingCount(tail);
      ConsIds(tail, ids[0]);
      AddFresh((set id: nat | id in tail), ids[0]);
    }
  }

  /** The ascending ids of a row map whose ids lie below `hi` are its ids, each once. */
  lemma AscendingIdsOf(m: RowMap, hi: nat)
    requires forall id | id in m :: id < hi
    ensures (set id: nat | id in AscendingIds(m, hi)) == m.Keys
    ensures |AscendingIds(m, hi)| == |m.Keys|
  {
    var ids := AscendingIds(m, hi);
    assert (set id: nat | id in ids) == m.Keys;
    AscendingCount(ids);
  }

  /** Deleting the rows of `m` in ascending order removes exactly them and counts them. */
  lemma DeleteAscending(t: TableState, m: RowMap)
    requires forall id | id in m :: id < t.nextRowId
    ensures DeleteLoop(t, AscendingIds(m, t.nextRowId), 0) == Step(TableState(t.schema, t.rows - m.Keys, t.nextRowId), Ok(|m.Keys|))
  {
    var ids := AscendingIds(m, t.nextRowId);
    AscendingIdsOf(m, t.nextRowId);
    DeleteLoopRemoves(t, ids, 0);
  }

  /** DELETE removes exactly the matched rows and counts them; the schema and the counter
      stay, so ids are not reused. */
  lemma DeleteSpecRemoves(t: TableState, where: Option<seq<Condition>>)
    requires forall id | id in t.rows :: id < t.nextRowId
    ensures var matched := FilterRows(t, where);
      DeleteSpec(t, where) == Step(TableState(t.schema, t.rows - matched.Keys, t.nextRowId), Ok(|matched.Keys|))
  {
    DeleteAscending(t, FilterRows(t, where));
  }

  /** DELETE keeps the table invariant and the counter. */
  lemma DeletePreservesWellFormed(t: TableState, where: Option<seq<Condition>>)
    requires WellFormed(t)
    ensures WellFormed(DeleteSpec(t, where).table)
    ensures DeleteSpec(t, where).table.nextRowId == t.nextRowId
  {
    DeleteSpecRemoves(t, where);
    SubmapKeepsWellFormed(t, DeleteSpec(t, where).table.rows);
  }

  /** Any part of a well-formed table's rows is a well-formed table. */
  lemma SubmapKeepsWellFormed(t: TableState, sub: RowMap)
    requires WellFormed(t)
    requires forall id | id in sub :: id in t.rows && sub[id] == t.rows[id]
    ensures WellFormed(TableState(t.schema, sub, t.nextRowId))
  {
    forall n | n in KeyNames(t.schema) ensures DistinctValues(sub, n) {
      DistinctInSubmap(t.rows, sub, n);
    }
  }

  // ---------------------------------------------------------------------------
  // Lookups through a key
  // ---------------------------------------------------------------------------

  /** On a key column, whose values are distinct, an equality with a row's non-null value
      finds that row and nothing else. */
  lemma KeyLookupFindsRow(t: TableState, id: nat, column: string)
    requires DistinctValues(t.rows, column)
    requires id in t.rows && column in KeyNames(t.schema)
    requires !Get(t.rows[id], column).Null?
    ensures FilterRows(t, Some([Condition(column, Eq, Get(t.rows[id], column))])) == map[id := t.rows[id]]
  {
    var v := Get(t.rows[id], column);
    var h := Holders(t.rows, column, KeyOf(v));
    NullKeyOnlyForNull(v);
    assert IndexedCondition([Condition(column, Eq, v)], KeyNames(t.schema)) == Some(Condition(column, Eq, v));
    assert id in h;
    HoldersAtMostOne(t.rows, column, KeyOf(v));
    assert h == {id} by {
      forall j | j in h ensures j == id {
        assert {id, j} <= h;
        SubsetCardinality({id, j}, h);
      }
    }
  }

  /** After inserting a row, an equality on one of its non-null key values finds that row
      and nothing else. */
  lemma InsertThenLookup(t: TableState, columns: Option<seq<string>>, values: seq<Value>, column: string)
    requires WellFormed(t)
    requires InsertSpec(t, columns, values).result.Ok?
    requires column in KeyNames(t.schema)
    requires !Get(InsertSpec(t, columns, values).table.rows[t.nextRowId], column).Null?
    ensures var t2 := InsertSpec(t, columns, values).table;
      var v := Get(t2.rows[t.nextRowId], column);
      FilterRows(t2, Some([Condition(column, Eq, v)])) == map[t.nextRowId := t2.rows[t.nextRowId]]
  {
    InsertOutcome(t, columns, values);
    InsertPreservesWellFormed(t, columns, values);
    KeyLookupFindsRow(InsertSpec(t, columns, values).table, t.nextRowId, column);
  }

  /** After deleting through an equality on a key with a non-null value, that equality
      finds nothing. */
  lemma DeleteThenLookup(t: TableState, column: string, v: Value)
    requires WellFormed(t) && column in KeyNames(t.schema) && !v.Null?
    ensures var t2 := DeleteSpec(t, Some([Condition(column, Eq, v)])).table;
      FilterRows(t2, Some([Condition(column, Eq, v)])) == map[]
  {
    var c := Condition(column, Eq, v);
    DeleteSpecRemoves(t, Some([c]));
    var rows2 := t.rows - Holders(t.rows, column, KeyOf(v));
    assert IndexedCondition([c], KeyNames(t.schema)) == Some(c);
    assert FilterRows(t, Some([c])).Keys == Holders(t.rows, column, KeyOf(v));
    assert DeleteSpec(t, Some([c])).table == TableState(t.schema, rows2, t.nextRowId);
    NoHoldersLeft(t.rows, column, KeyOf(v));
    assert IndexLookup(rows2, column, v) == map[];
  }

  /** Removing the rows that hold a key leaves none that holds it. */
  lemma NoHoldersLeft(rows: RowMap, n: string, k: ValueKey)
    ensures Holders(rows - Holders(rows, n, k), n, k) == {}
  {
    var rows2 := rows - Holders(rows, n, k);
    forall id | id in rows2
      ensures id !in Holders(rows2, n, k)
    {
      assert rows2[id] == rows[id];
    }
  }

  // ---------------------------------------------------------------------------
  // CREATE TABLE and loading
  // ---------------------------------------------------------------------------

  /** `Column(...)` from a parsed or stored definition; `DataType(type)` raises for an
      unknown type name. PRIMARY KEY implies unique. */
  function ColumnOf(d: ColumnDef): (r: Result<Column>)
    ensures r.Ok? ==> r.value.name == d.name && TypeName(r.value.dtype) == d.typeName
    ensures r.Ok? ==> (r.value.isPrimary <==> "PRIMARY KEY" in d.constraints)
    ensures r.Ok? ==> (r.value.isUnique <==> "UNIQUE" in d.constraints || "PRIMARY KEY" in d.constraints)
    ensures r.Err? <==> ParseDataType(d.typeName).None?
  {
    match ParseDataType(d.typeName)
    case None => Err(InvalidDataType(d.typeName))
    case Some(dt) =>
      Ok(Column(d.name, dt, "PRIMARY KEY" in d.constraints, "UNIQUE" in d.constraints || "PRIMARY KEY" in d.constraints))
  }

  /** The schema of a definition list; the first bad type raises. */
  function ColumnsOf(defs: seq<ColumnDef>): (r: Result<seq<Column>>)
    ensures r.Ok? <==> forall i | 0 <= i < |defs| :: ColumnOf(defs[i]).Ok?
    ensures r.Ok? ==> |r.value| == |defs| && forall i | 0 <= i < |defs| :: ColumnOf(defs[i]) == Ok(r.value[i])
    ensures r.Err? ==> exists i | 0 <= i < |defs| :: ColumnOf(defs[i]) == Err(r.error)
    decreases |defs|
  {
    if |defs| == 0 then Ok([])
    else match ColumnOf(defs[0])
      case Err(e) => Err(e)
      case Ok(c) =>
        match ColumnsOf(defs[1..])
        case Err(e) =>
          assert exists i | 0 <= i < |defs| :: ColumnOf(defs[i]) == Err(e) by {
            var i :| 0 <= i < |defs| - 1 && ColumnOf(defs[1..][i]) == Err(e);
            assert defs[i + 1] == defs[1..][i];
          }
          Err(e)
        case Ok(cs) =>
          assert forall i | 1 <= i < |defs| :: defs[i] == defs[1..][i - 1];
          Ok([c] + cs)
  }

  /** The schema of the definitions from `i` on is the column of definition `i` in front of
      the schema of the rest. */
  lemma ColumnsOfUnroll(defs: seq<ColumnDef>, i: nat, done: seq<Column>)
    requires i < |defs|
    ensures Prepend(done, ColumnsOf(defs[i..])) ==
              (match ColumnOf(defs[i])
               case Err(e) => Err(e)
               case Ok(c) => Prepend(done + [c], ColumnsOf(defs[i + 1..])))
  {
    assert defs[i..][1..] == defs[i + 1..];
    match ColumnOf(defs[i])
    case Err(e) =>
    case Ok(c) =>
      var rest := ColumnsOf(defs[i + 1..]);
      if rest.Ok? {
        assert done + ([c] + rest.value) == (done + [c]) + rest.value;
      }
  }

  /** The schema file written by CREATE TABLE: name, type name and the constraint words. */
  function SchemaRecord(schema: seq<Column>, defs: seq<ColumnDef>): seq<ColumnDef>
    requires |schema| == |defs|
  {
    seq(|schema|, i requires 0 <= i < |schema| => SchemaEntry(schema[i], defs[i]))
  }

  /** One entry of the schema file: the column's name and type name, and the constraint
      words of its definition. */
  function SchemaEntry(c: Column, d: ColumnDef): ColumnDef {
    ColumnDef(c.name, TypeName(c.dtype), d.constraints)
  }

  /** The record grows by one entry with each definition the loop turns into a column. */
  lemma SchemaRecordAppend(schema: seq<Column>, defs: seq<ColumnDef>, i: nat, c: Column)
    requires |schema| == i < |defs|
    ensures SchemaRecord(schema + [c], defs[..i + 1]) == SchemaRecord(schema, defs[..i]) + [SchemaEntry(c, defs[i])]
  {
  }

  /** The schema file holds the definitions as parsed, so reloading builds the same schema. */
  lemma SchemaRecordRoundTrip(defs: seq<ColumnDef>)
    requires ColumnsOf(defs).Ok?
    ensures SchemaRecord(ColumnsOf(defs).value, defs) == defs
    ensures ColumnsOf(SchemaRecord(ColumnsOf(defs).value, defs)) == ColumnsOf(defs)
  {
    var cols := ColumnsOf(defs).value;
    assert SchemaRecord(cols, defs) == defs by {
      forall i | 0 <= i < |defs| ensures SchemaRecord(cols, defs)[i] == defs[i] {
        assert ColumnOf(defs[i]) == Ok(cols[i]);
      }
    }
  }

  /** A new table: no rows, ids starting from 1. */
  function EmptyTable(schema: seq<Column>): TableState {
    TableState(schema, map[], 1)
  }

  /** `max(1, max(ids) + 1)`: the counter `_load_table` computes from the stored ids. */
  ghost function NextIdAfter(ids: set<nat>): (n: nat)
    ensures n >= 1 && forall id | id in ids :: id < n
    ensures ids != {} ==> n - 1 in ids
    ensures ids == {} ==> n == 1
    decreases ids
  {
    if ids == {} then 1
    else
      var id :| id in ids;
      var rest := NextIdAfter(ids - {id});
      assert forall x | x in ids :: x == id || x in ids - {id};
      if id + 1 > rest then id + 1 else rest
  }

  /** The counter grows to cover each id as the load loop visits it. */
  lemma NextIdAfterAdd(ids: set<nat>, id: nat)
    ensures NextIdAfter(ids + {id}) == if id + 1 > NextIdAfter(ids) then id + 1 else NextIdAfter(ids)
  {
    var a := NextIdAfter(ids + {id});
    var b := if id + 1 > NextIdAfter(ids) then id + 1 else NextIdAfter(ids);
    if ids != {} { assert NextIdAfter(ids) - 1 in ids + {id}; }
    assert a - 1 in ids + {id};
  }

  /** A table rebuilt from its stored schema and rows. */
  ghost function LoadedTable(schema: seq<Column>, rows: RowMap): TableState {
    TableState(schema, rows, NextIdAfter(rows.Keys))
  }

  /** The table `_execute_create_table` makes is well-formed, and it is what loading a
      schema without stored rows gives. */
  lemma EmptyTableLoaded(schema: seq<Column>)
    ensures WellFormed(EmptyTable(schema))
    ensures LoadedTable(schema, map[]) == EmptyTable(schema)
  {
  }

  /** Saving a well-formed table and loading it back gives a well-formed table with the same
      rows, whose counter never exceeds the one in memory. */
  lemma ReloadKeepsRows(t: TableState)
    requires WellFormed(t)
    ensures WellFormed(LoadedTable(t.schema, t.rows))
    ensures LoadedTable(t.schema, t.rows).rows == t.rows
    ensures LoadedTable(t.schema, t.rows).nextRowId <= t.nextRowId
  {
    var n := NextIdAfter(t.rows.Keys);
    if t.rows != map[] {
      assert n - 1 in t.rows;
    }
  }
}
