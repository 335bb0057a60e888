/**
 * The index maintenance of the query executor (database/executor.py): building one unique
 * `Index` per key column, and the loops that insert, update and delete one row's values in
 * every index. Each loop is proved to leave every index holding exactly the buckets its
 * column's values determine in the new rows.
 */
module Indexing {
  import opened Wrappers
  import opened Types
  import opened Errors
  import opened TableModel

  /** Every index is a unique index over the column it is filed under, holding the buckets
      of that column's values in `rows`. */
  ghost predicate IndexesOver(indexes: map<string, Index>, rows: RowMap)
    reads indexes.Values
  {
    forall n | n in indexes ::
      indexes[n].columnName == n && indexes[n].isUnique && indexes[n].buckets == BucketsOf(rows, n)
  }

  /** No index object is filed under two names. */
  ghost predicate Injective(indexes: map<string, Index>) {
    forall a, b | a in indexes && b in indexes && a != b :: indexes[a] != indexes[b]
  }

  /** The index-building loop of `_load_table` and `_execute_create_table`: a new unique
      index for every primary or unique column, a repeated name replacing the earlier one
      but keeping its place. */
  method BuildIndexes(cols: seq<Column>) returns (indexes: map<string, Index>, order: seq<string>)
    ensures indexes.Keys == KeyNames(cols) && order == KeyNameOrder(cols)
    ensures (forall n | n in indexes :: fresh(indexes[n])) && Injective(indexes) && IndexesOver(indexes, map[])
  {
    indexes := map[];
    order := [];
    for i := 0 to |cols|
      invariant indexes.Keys == KeyNames(cols[..i]) && order == KeyNameOrder(cols[..i])
      invariant forall n | n in indexes :: fresh(indexes[n])
      invariant Injective(indexes) && IndexesOver(indexes, map[])
    {
      var c := cols[i];
      KeyNameOrderSnoc(cols, i);
      if IsKey(c) {
        if c.name !in indexes {
          order := order + [c.name];
        }
        indexes := AddIndex(indexes, c.name);
      }
    }
    assert cols[..|cols|] == cols;
  }

  /** `indexes[name] = Index(name, is_unique=True)`: a new empty index filed under `n`,
      replacing the one already there if any. */
  method AddIndex(indexes: map<string, Index>, n: string) returns (r: map<string, Index>)
    requires Injective(indexes) && IndexesOver(indexes, map[])
    ensures r.Keys == indexes.Keys + {n} && fresh(r[n])
    ensures forall m | m in r :: fresh(r[m]) || (m in indexes && r[m] == indexes[m])
    ensures Injective(r) && IndexesOver(r, map[])
  {
    var index := new Index(n, true);
    r := indexes[n := index];
  }

  /** One `Index.insert` of a row stored under the fresh id `id`, on the index over `n`.
      When the row's value is already in (`done`: the load loop meets a column name twice)
      a non-null value is refused; otherwise it is accepted. Either way the buckets end up
      those of the rows with the new row added. */
  method InsertValue(index: Index, ghost before: RowMap, n: string, id: nat, row: Row, ghost done: bool) returns (ok: bool)
    requires index.columnName == n && index.isUnique
    requires index.buckets == if done then BucketsOf(before[id := row], n) else BucketsOf(before, n)
    requires id !in before
    requires DistinctValues(before[id := row], n)
    modifies index
    ensures index.buckets == BucketsOf(before[id := row], n)
    ensures ok <==> !done || Get(row, n).Null?
  {
    ghost var r := if done then before[id := row] else before;
    var v := Get(row, n);
    DistinctInSubmap(before[id := row], r, n);
    BucketsOfWellFormed(r, n);
    BucketsOfSearch(r, n, v);
    BucketsOfAdd(before, n, id, row);
    NullKeyOnlyForNull(v);
    if !v.Null? {
      if done {
        assert id in Holders(before[id := row], n, KeyOf(v));
      } else {
        FreshRowHoldsNewValue(before, n, id, row);
      }
    }
    ok := index.Insert(v, id);
  }

  /** One `Index.update` of UPDATE on the index over `n`, for a row whose value in `n`
      changes: the check has passed, so the new value is accepted, and the buckets become
      those of the rewritten rows. */
  method UpdateValue(index: Index, rows: RowMap, n: string, id: nat, row: Row) returns (ok: bool)
    requires index.columnName == n && index.isUnique && index.buckets == BucketsOf(rows, n)
    requires id in rows && DistinctValues(rows, n) && DistinctValues(rows[id := row], n)
    requires !Equal(Get(rows[id], n), Get(row, n))
    modifies index
    ensures ok && index.buckets == BucketsOf(rows[id := row], n)
  {
    var oldValue, newValue := Get(rows[id], n), Get(row, n);
    BucketsOfWellFormed(rows, n);
    BucketsOfReplace(rows, n, id, row);
    if !newValue.Null? {
      NullKeyOnlyForNull(newValue);
      assert Get(rows[id := row][id], n) == newValue;
      forall j | j in rows ensures KeyOf(Get(rows[j], n)) != KeyOf(newValue) {
        if j != id {
          assert rows[id := row][j] == rows[j];
        }
      }
      assert Holders(rows, n, KeyOf(newValue)) == {};
    }
    ok := index.Update(oldValue, newValue, id);
  }

  /** One `Index.delete` of DELETE on the index over `n`: the buckets become those of the
      rows without `id`. */
  method DeleteValue(index: Index, rows: RowMap, n: string, id: nat)
    requires index.columnName == n && index.isUnique && index.buckets == BucketsOf(rows, n)
    requires id in rows && DistinctValues(rows, n)
    modifies index
    ensures index.buckets == BucketsOf(rows - {id}, n)
  {
    BucketsOfWellFormed(rows, n);
    BucketsOfRemove(rows, n, id);
    index.Delete(Get(rows[id], n), id);
  }

  /** `order` lists every index name once: the order `indexes.items()` visits them in. */
  ghost predicate Ordered(indexes: map<string, Index>, order: seq<string>) {
    && (forall i, j | 0 <= i < j < |order| :: order[i] != order[j])
    && (forall n :: n in order <==> n in indexes)
  }

  /** INSERT's index loop: every index takes the value of the row stored under the fresh
      id. The row has passed the check, so no index refuses it and the rollback cannot
      happen. */
  method IndexNewRow(indexes: map<string, Index>, order: seq<string>, ghost before: RowMap, id: nat, row: Row)
    requires IndexesOver(indexes, before) && Injective(indexes) && Ordered(indexes, order)
    requires id !in before
    requires forall n | n in indexes :: DistinctValues(before[id := row], n)
    modifies indexes.Values
    ensures IndexesOver(indexes, before[id := row])
  {
    for j := 0 to |order|
      invariant forall n | n in indexes ::
        indexes[n].buckets == if n in order[..j] then BucketsOf(before[id := row], n) else BucketsOf(before, n)
    {
      var n := order[j];
      assert n !in order[..j];
      assert order[..j + 1] == order[..j] + [n];
      var ok := InsertValue(indexes[n], before, n, id, row, false);
      if !ok {
        assert false;
      }
    }
    assert order[..|order|] == order;
  }

  /** UPDATE's index loop for one row: every index whose value changes is updated, which
      the check guarantees it accepts. */
  method IndexReplacedRow(indexes: map<string, Index>, order: seq<string>, rows: RowMap, id: nat, updated: Row)
    requires IndexesOver(indexes, rows) && Injective(indexes) && Ordered(indexes, order)
    requires id in rows
    requires forall n | n in indexes :: DistinctValues(rows, n) && DistinctValues(rows[id := updated], n)
    modifies indexes.Values
    ensures IndexesOver(indexes, rows[id := updated])
  {
    var row := rows[id];
    for j := 0 to |order|
      invariant forall n | n in indexes ::
        indexes[n].buckets == if n in order[..j] then BucketsOf(rows[id := updated], n) else BucketsOf(rows, n)
    {
      var n := order[j];
      assert n !in order[..j];
      assert order[..j + 1] == order[..j] + [n];
      var oldValue, newValue := Get(row, n), Get(updated, n);
      if !Equal(oldValue, newValue) {
        var ok := UpdateValue(indexes[n], rows, n, id, updated);
        if !ok {
          assert false;
        }
      } else {
        BucketsOfReplace(rows, n, id, updated);
      }
    }
    assert order[..|order|] == order;
  }

  /** DELETE's index loop for one row: the row's value leaves every index. */
  method IndexRemovedRow(indexes: map<string, Index>, order: seq<string>, rows: RowMap, id: nat)
    requires IndexesOver(indexes, rows) && Injective(indexes) && Ordered(indexes, order)
    requires id in rows
    requires forall n | n in indexes :: DistinctValues(rows, n)
    modifies indexes.Values
    ensures IndexesOver(indexes, rows - {id})
  {
    for j := 0 to |order|
      invariant forall n | n in indexes ::
        indexes[n].buckets == if n in order[..j] then BucketsOf(rows - {id}, n) else BucketsOf(rows, n)
    {
      var n := order[j];
      assert n !in order[..j];
      assert order[..j + 1] == order[..j] + [n];
      DeleteValue(indexes[n], rows, n, id);
    }
    assert order[..|order|] == order;
  }

  /** The inner loop of `_load_table`: the row's value of every indexed column is inserted,
      once per schema column (a repeated column name inserts again and is refused). */
  method IndexLoadedRow(indexes: map<string, Index>, cols: seq<Column>, loaded: RowMap, id: nat, row: Row)
    requires IndexesOver(indexes, loaded) && Injective(indexes)
    requires id !in loaded
    requires indexes.Keys <= SchemaNames(cols)
    requires forall n | n in indexes :: DistinctValues(loaded[id := row], n)
    modifies indexes.Values
    ensures IndexesOver(indexes, loaded[id := row])
  {
    for j := 0 to |cols|
      invariant forall n | n in indexes :: indexes[n].columnName == n && indexes[n].isUnique
      invariant forall n | n in indexes ::
        indexes[n].buckets == if n in SchemaNames(cols[..j]) then BucketsOf(loaded[id := row], n) else BucketsOf(loaded, n)
    {
      var n := cols[j].name;
      assert SchemaNames(cols[..j + 1]) == SchemaNames(cols[..j]) + {n} by {
        assert forall c | c in cols[..j + 1] :: c == cols[j] || c in cols[..j];
        assert forall c | c in cols[..j] :: c in cols[..j + 1];
      }
      if n in indexes {
        var _ := InsertValue(indexes[n], loaded, n, id, row, n in SchemaNames(cols[..j]));
      }
    }
    assert cols[..|cols|] == cols;
  }

  /** The outer loop of `_load_table`: every stored row is indexed and the counter becomes
      one past the largest id (at least 1). The rows are visited in any order, which cannot
      change the result. */
  method LoadRows(indexes: map<string, Index>, cols: seq<Column>, saved: RowMap) returns (next: nat)
    requires IndexesOver(indexes, map[]) && Injective(indexes)
    requires indexes.Keys <= SchemaNames(cols)
    requires forall n | n in indexes :: DistinctValues(saved, n)
    modifies indexes.Values
    ensures IndexesOver(indexes, saved)
    ensures next == NextIdAfter(saved.Keys)
  {
    var loaded: RowMap := map[];
    next := 1;
    var remaining := saved.Keys;
    while remaining != {}
      invariant remaining <= saved.Keys
      invariant forall id | id in saved :: id in loaded <==> id !in remaining
      invariant forall id | id in loaded :: id in saved && loaded[id] == saved[id]
      invariant next == NextIdAfter(loaded.Keys)
      invariant IndexesOver(indexes, loaded)
      decreases remaining
    {
      var id :| id in remaining;
      var row := saved[id];
      NextIdAfterAdd(loaded.Keys, id);
      assert loaded[id := row].Keys == loaded.Keys + {id};
      next := if next > id + 1 then next else id + 1;
      ghost var grown := loaded[id := row];
      assert forall x | x in grown :: x in saved && grown[x] == saved[x] by {
        forall x | x in grown ensures x in saved && grown[x] == saved[x] {
          if x != id {
            assert x in loaded;
          }
        }
      }
      forall n | n in indexes ensures DistinctValues(grown, n) {
        DistinctInSubmap(saved, grown, n);
      }
      IndexLoadedRow(indexes, cols, loaded, id, row);
      loaded := loaded[id := row];
      remaining := remaining - {id};
    }
    assert loaded == saved;
  }

  /** The invariant of one table: one index per key column, filed under its name in
      creation order; a well-formed table state; and every index mirroring its column. */
  ghost predicate Mirrored(indexes: map<string, Index>, order: seq<string>, t: TableState)
    reads indexes.Values
  {
    && indexes.Keys == KeyNames(t.schema) && order == KeyNameOrder(t.schema) && Injective(indexes)
    && WellFormed(t) && IndexesOver(indexes, t.rows)
  }

  /** The index half of INSERT: a checked row stored under `next_row_id` enters every
      index, and the table with the row added keeps the invariant. */
  method IndexInsertedRow(indexes: map<string, Index>, order: seq<string>, t: TableState, row: Row)
    requires Mirrored(indexes, order, t)
    requires Admissible(t, row, None)
    modifies indexes.Values
    ensures Mirrored(indexes, order, TableState(t.schema, t.rows[t.nextRowId := row], t.nextRowId + 1))
  {
    PutPreservesWellFormed(t, t.nextRowId, row, None, t.nextRowId + 1);
    IndexNewRow(indexes, order, t.rows, t.nextRowId, row);
  }

  /** The index half of one row of UPDATE: the rewritten row, which keeps the table
      well-formed, replaces the old one in every index. */
  method IndexRewrittenRow(indexes: map<string, Index>, order: seq<string>, t: TableState, id: nat, row: Row)
    requires Mirrored(indexes, order, t) && id in t.rows
    requires WellFormed(TableState(t.schema, t.rows[id := row], t.nextRowId))
    modifies indexes.Values
    ensures Mirrored(indexes, order, TableState(t.schema, t.rows[id := row], t.nextRowId))
  {
    IndexReplacedRow(indexes, order, t.rows, id, row);
  }

  /** The index half of one row of DELETE: the row leaves every index. */
  method IndexDeletedRow(indexes: map<string, Index>, order: seq<string>, t: TableState, id: nat)
    requires Mirrored(indexes, order, t) && id in t.rows
    modifies indexes.Values
    ensures Mirrored(indexes, order, TableState(t.schema, t.rows - {id}, t.nextRowId))
  {
    SubmapKeepsWellFormed(t, t.rows - {id});
    IndexRemovedRow(indexes, order, t.rows, id);
  }
}
