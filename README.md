# A verified model of a small file-backed SQL engine

This project models the core of a small relational database written in Python. The engine
takes one SQL-like statement as text, parses it into a statement record, and hands that
record to an executor. The executor keeps every table in memory and writes a table's
files after each change. A table has:

- a schema of columns typed INT, TEXT or BOOL;
- rows keyed by a row-id;
- a hash index on every primary-key or unique column;
- a `next_row_id` counter.

The model follows the structure of the program:

- `types.dfy` (`Types`):
  - the runtime values;
  - Python's equality on them, where `True == 1`;
  - `Column.validate_value`;
  - the `Index` class with its mutable map from value to a set of row-ids.
- `text.dfy` (`Text`): the string operations the parser relies on: `strip`, `rstrip`,
  `upper`, `split`, `isdigit` and the character classes of `\s` and `\w`.
- `grammar.dfy` (`Grammar`), the parser as functions:
  - the literal decoder;
  - the parenthesis-aware comma splitter;
  - the WHERE, SET, JOIN and column-definition decoders;
  - hand-written recognisers for the five statement patterns;
  - the keyword dispatch.
- `recognition.dfy` (`Recognition`): for each statement shape — a `\w+` table name and
  clause texts on one line — the groups its recogniser yields and the statement `parse`
  returns. This includes the inputs where `\s+` gives a character back to an empty lazy
  group.
- `parser.dfy` (`Parser`): the parser's loops as methods. Each is proved equal to its
  function in `Grammar`.
- `tables.dfy` (`TableModel`): one table as a value, with:
  - the constraint check and WHERE filtering;
  - projection and the join;
  - INSERT, UPDATE and DELETE on one table;
  - loading from the stored rows;
  - the table invariant and the lemmas that it is kept.
- `database.dfy` (`Database`): the whole database as a value, meaning the tables in
  memory plus the data directory. `Execute` gives the effect of one statement, and there
  are lemmas that every statement keeps memory and files consistent.
- `indexing.dfy` (`Indexing`): the loops that keep a table's `Index` objects equal to
  the index the rows determine.
- `executor.dfy` (`Executor`):
  - the classes `Table` (schema, rows, counter and `Index` objects) and `QueryExecutor`
    (the table registry and the data directory);
  - their methods, each proved to change the state as its value-level function in
    `TableModel` or `Database` says.
- `engine.dfy` (`Engine`): `DatabaseEngine`, which is parse then execute, `list_tables` and
  `get_table_info`.

Some behaviour of the code is reproduced as written, not as the statement keywords might
suggest:

- **`PRIMARY KEY` never marks a column primary.** The CREATE parser upper-cases each
  constraint word separately, as in `database/parser.py:87`. The executor then looks for
  the single list element `'PRIMARY KEY'`, as in `database/executor.py:102`. So a parsed
  `PRIMARY KEY` marks a column neither primary nor unique, while `UNIQUE` works. This is
  `Grammar.ParsedColumnsNeverPrimaryKey`.
- **`!=` reads as `=`.** The WHERE decoder tests for `=` before `!=`, so a `!=` term
  becomes an equality. Its column name keeps the `!`. This is
  `Grammar.NotEqualReadAsEquality` and `Grammar.ConditionsUseEquality`.
- **BOOL values fit INT columns.** A Python `bool` is an `int`, so BOOL values pass INT
  validation, and `True` and `1` are the same index key.
- **The index answers alone.** The first equality on an indexed column is answered from
  the index, and every other condition is ignored.
- **A join ignores the projection.** A SELECT with a join returns the merged rows whatever
  columns were asked for.
- **UPDATE is not atomic.** When a row fails part-way through an UPDATE, the rows already
  rewritten stay rewritten in memory, and nothing is saved.

The repository's description of the system disagrees with the code in three places. The
model follows the code each time:

- The description says a constraint list containing `PRIMARY KEY` makes a column primary.
  In the code it does not, as above.
- The description says UPDATE saves the table on any success. In the code it saves only
  when at least one row changed (`database/executor.py:293`).
- The description says row-ids are never reused within a table's lifetime. In memory
  this holds, because the counter only grows. Reloading from the files recomputes the
  counter as the largest stored id plus one (`database/executor.py:52-57`), so ids freed
  by deleting the newest rows are handed out again after a restart.
  `TableModel.ReloadKeepsRows` states that the reloaded counter is at most the counter in
  memory.

Python dicts iterate in insertion order. Rows get increasing ids, and a rewritten row
keeps its place, so every loop over a table's rows visits the ids in ascending order. The
model iterates ids from 0 up to `next_row_id`. Every index the executor creates is unique,
because it is created only for a primary or unique column. An index lookup therefore
yields at most one id, and the set iteration order of the indexed join never shows.

## Model

| member | source | states |
|---|---|---|
| Types.ValidateValue | database/types.py:25-36 | NULL fits every column; an INT column takes integers and bools; a TEXT column takes strings; a BOOL column takes bools; a float fits no column |
| Types.BoolColumnValuesFitIntColumn | database/types.py:30-35 | every value a BOOL column accepts is also accepted by an INT column |
| Types.BoolEqualsInt | database/types.py:52-57 | `True` and `1` (and `False` and `0`) are the same key, and a bool never equals a string |
| Types.NullKeyOnlyForNull | database/types.py:49-50 | only NULL has the NULL key, the one the index never stores |
| Types.TypeNameRoundTrip | database/types.py:10-14 | `DataType(t.value)` is `t` for each of INT, TEXT and BOOL |
| Types.ParseDataType | database/executor.py:101 | `DataType(name)` succeeds only on a name that is the value of the type it returns |
| Types.Added | database/types.py:55-57 | adding an id to a value's bucket creates the bucket if needed, puts the id in it with the ids it had, and leaves every other bucket alone |
| Types.Removed | database/types.py:62-65 | removing an id from a value's bucket does nothing when the value is absent, and drops the bucket when it empties |
| Types.RemovedWellFormed | database/types.py:60-65 | removal keeps buckets non-empty and, on a unique index, of at most one id; `search` loses exactly that id for that value |
| Types.Index.constructor | database/types.py:42-45 | a new index has the given column and uniqueness and no buckets |
| Types.Index.Insert | database/types.py:47-58 | inserting NULL succeeds and changes nothing; on a unique index a value already held is refused and nothing changes; otherwise `search(v)` gains the id and no other bucket changes; the no-empty-bucket and at-most-one-id invariant is kept |
| Types.Index.Delete | database/types.py:60-65 | `search(v)` loses the id, the bucket goes when empty, other values' buckets are unchanged, the invariant is kept |
| Types.Index.Update | database/types.py:67-70 | the old entry is deleted first; the insert of the new value then succeeds or fails as `insert` would on the index without it, and a failure leaves the old entry removed |
| Types.Index.Search | database/types.py:72-74 | an absent value gives no ids, NULL gives none, and a unique index gives at most one |
| Types.Index.HasValue | database/types.py:76-78 | `has_value(v)` holds exactly when `search(v)` is non-empty |
| Text.Strip | database/parser.py:51 | `str.strip()` leaves no whitespace at either end and is no longer than its input |
| Text.StripCutsEnds | database/parser.py:51 | `str.strip()` returns a contiguous part of the input with only whitespace before and after it, and its own first and last characters are not whitespace, which determines it |
| Text.StripIdempotent | database/parser.py:237 | stripping twice is stripping once |
| Text.RStripChar | database/parser.py:51 | `rstrip(';')` removes every trailing `;` and only those |
| Text.Upper | database/parser.py:53 | `upper()` keeps the length and upper-cases each ASCII letter |
| Text.SplitWhitespace | database/parser.py:81 | `split()` gives non-empty parts free of whitespace |
| Text.SplitWhitespaceSpaced | database/parser.py:81 | `split()` of words separated by runs of whitespace, with optional runs at either end, gives back exactly those words in order |
| Text.SplitOn | database/parser.py:113 | `split(c)` gives at least one part, none containing `c`, and joining the parts with `c` gives the input back |
| Text.IndexOf | database/parser.py:185 | the position of the first occurrence of a character, absent exactly when the character is not there |
| Text.NotEqualContainsEqual | database/parser.py:219-226 | text containing `!=` contains `=`, so the `!=` branch of the WHERE decoder is never taken |
| Grammar.KeywordLiterals | database/parser.py:239-244 | `NULL`, `TRUE` and `FALSE` in any case, padded or not, give NULL, true and false |
| Grammar.SingleQuotedRoundTrip | database/parser.py:245-246 | a single-quoted text decodes to exactly its contents, without escape processing |
| Grammar.DoubleQuotedRoundTrip | database/parser.py:247-248 | a double-quoted text decodes to exactly its contents |
| Grammar.IntRoundTrip | database/parser.py:249-250 | the decimal text of every integer, negative ones included, decodes to that integer |
| Grammar.DigitsParse | database/parser.py:249-250 | a run of digits decodes to the integer it spells |
| Grammar.NegativeDigitsParse | database/parser.py:249-250 | a minus sign followed by digits decodes to the negated integer |
| Grammar.ParseValueOfStripped | database/parser.py:237 | decoding a stripped piece is decoding the piece, so the extra `strip` at the call sites changes nothing |
| Grammar.FirstTopComma | database/parser.py:271-279 | finds the first comma at parenthesis depth 0 from a position, with no such comma before it, or reports that there is none |
| Grammar.SplitPiecesStripped | database/parser.py:277-283 | every piece `_split_by_commas` returns is stripped |
| Grammar.SplitWithoutTopComma | database/parser.py:282-284 | text with no top-level comma is one stripped piece, or no piece at all when empty |
| Grammar.SplitAtLeadingComma | database/parser.py:276-279 | a top-level comma ends the current piece, which is emitted stripped |
| Grammar.ConditionsUseEquality | database/parser.py:218-232 | every parsed WHERE condition has operator `=` |
| Grammar.NotEqualReadAsEquality | database/parser.py:219-225 | `l != r` becomes the equality of column `l!` with the decoded `r` |
| Grammar.ConditionsSnoc | database/parser.py:218-232 | each term adds its condition at the end, and a term without `=` adds nothing |
| Grammar.AssignLookup | database/parser.py:183-186 | after a SET assignment the column reads the new value, so a later assignment overrides an earlier one, and every other column keeps its value |
| Grammar.AssignDistinct | database/parser.py:183-186 | the SET dict never names a column twice |
| Grammar.ValueList | database/parser.py:258-263 | one value per comma-separated piece |
| Grammar.ParsedValuesAt | database/parser.py:261-262 | the value at each position is the decoding of the piece at that position |
| Grammar.UpperAll | database/parser.py:87 | every constraint word is upper-cased separately, in order |
| Grammar.JoinOf | database/parser.py:150-153 | an ON text that does not split on `=` into exactly two parts is a syntax error |
| Grammar.WordIsNotPrimaryKey | database/parser.py:81-87 | a single upper-cased word is never the two-word `PRIMARY KEY` |
| Grammar.ParsedColumnsNeverPrimaryKey | database/parser.py:76-93 | no parsed column definition has `PRIMARY KEY` among its constraints |
| Grammar.TrailingSemicolonIgnored | database/parser.py:51 | a trailing `;` does not change how a statement parses |
| Parser.Parse | database/parser.py:49-64 | strips whitespace and trailing `;`, dispatches on the case-insensitive keyword, and gives a syntax error for any other text, as `Grammar.Parsed` defines |
| Parser.ParseCreateTable | database/parser.py:66-99 | matches `CREATE TABLE name (body)` with the body running to the last `)`, or fails with a syntax error; the body gives the column definitions |
| Parser.ParseColumnDefs | database/parser.py:75-93 | empty pieces are skipped; each other piece gives its first word as the name, its upper-cased second word as the type and its other words, each upper-cased, as the constraints; a one-word piece raises `IndexError` |
| Parser.ColumnDefsSkip | database/parser.py:76-79 | a piece that strips to nothing is skipped and the column-definition loop goes on with the same definitions |
| Parser.ColumnDefsFail | database/parser.py:81-83 | a piece of a single word makes `parts[1]` raise, so the whole CREATE TABLE parse fails with that `IndexError`, whatever follows it |
| Parser.ColumnDefsKeep | database/parser.py:76-93 | a piece that reads as a definition is appended and the loop goes on |
| Parser.ColumnDefOfWords | database/parser.py:81-92 | a definition is its first word, its upper-cased second word and its remaining words upper-cased as constraints |
| Parser.ParseInsert | database/parser.py:101-125 | matches the INSERT pattern with its lazy optional column group; the column list is split on every comma and stripped, and an empty one counts as absent; the values are decoded |
| Parser.ParseSelect | database/parser.py:127-170 | matches the SELECT pattern with its lazy groups; `*` or a stripped column list; the WHERE conditions; the JOIN table and the column names after `.`, with a syntax error when ON does not have two sides |
| Parser.ParseUpdate | database/parser.py:172-196 | matches the UPDATE pattern; the SET pieces split at the first `=` into an ordered dict, where a piece without `=` raises; the WHERE conditions |
| Parser.ParseAssignments | database/parser.py:183-186 | the SET loop: assignments applied in order, aborted by the first piece without `=` |
| Parser.ParseDelete | database/parser.py:198-213 | matches `DELETE FROM name` with an optional WHERE to the end of the line |
| Parser.ParseWhereClause | database/parser.py:215-233 | the conditions of the comma-split terms, as `Grammar.WhereConditions` defines |
| Parser.ParseConditions | database/parser.py:217-233 | the loop over the terms builds the condition list, each term adding its own at the end |
| Parser.ParseOptionalWhere | database/parser.py:146 | no conditions when the WHERE group is absent or empty |
| Parser.ParseValues | database/parser.py:258-263 | the decoded values of the comma-split pieces, in order |
| Parser.ParsePieces | database/parser.py:260-263 | the loop decodes each piece in order |
| Parser.ParseStrippedPiece | database/parser.py:262 | decoding a piece after stripping it equals decoding the piece |
| Parser.SplitByCommasLoop | database/parser.py:265-284 | the character loop, tracking depth and the current piece, returns the pieces of `Grammar.SplitByCommas`: cut at top-level commas, stripped, with a last piece only when text remains |
| Recognition.RecogniseCreateTable | database/parser.py:66-99 | `CREATE TABLE t (body)` with a `\w+` name matches with table `t` and the whole text between the parentheses as the body, and parses to the column definitions read from it, or to their error |
| Recognition.RecogniseInsert | database/parser.py:101-125 | `INSERT INTO t VALUES (vals)` matches with no column group and parses to an INSERT into `t` of the values decoded from `vals` |
| Recognition.RecogniseInsertColumns | database/parser.py:101-125 | `INSERT INTO t (cols) VALUES (vals)` with a non-empty column list free of `)` matches with that list, and parses to an INSERT naming the stripped comma-separated columns |
| Recognition.RecogniseSelect | database/parser.py:127-170 | `SELECT c FROM t`, for any column list `c` (such as `name, age`) without a newline in which no ` FROM ` starts, in any case and counting the blank after `c`, matches with columns `c` and table `t`, and parses to a SELECT of the projection of `c` with no conditions and no join |
| Recognition.RecogniseSelectWhere | database/parser.py:127-170 | `SELECT c FROM t WHERE w`, for the same column lists and line text `w` without `INNER JOIN`, matches with the whole of `w` as the WHERE text and parses to its conditions |
| Recognition.RecogniseSelectJoin | database/parser.py:127-170 | `SELECT c FROM t INNER JOIN u ON on`, for the same column lists, matches with join table `u` and ON text `on`, and parses to the join spec of `u` and `on`, or to its syntax error |
| Recognition.RecogniseSelectEmptyWhere | database/parser.py:34-37 | `SELECT c FROM t WHERE  INNER JOIN` + newline + `u ON on`, for the same column lists: the lazy WHERE group cannot cross the newline, so `\s+` gives a blank back and the WHERE group matches empty; the statement is the join with no conditions |
| Recognition.RecogniseUpdate | database/parser.py:172-196 | `UPDATE t SET a`, for line text `a` without the keyword WHERE, matches with the whole of `a` as the SET text and parses to its assignments, or to the first assignment's error, with no conditions |
| Recognition.RecogniseUpdateWhere | database/parser.py:172-196 | `UPDATE t SET a WHERE w`, for such an `a` not ending in whitespace, splits at the WHERE clause and parses to the assignments of `a` and the conditions of `w` |
| Recognition.RecogniseUpdateEmptySet | database/parser.py:39-42 | `UPDATE t SET  WHERE` + newline + `w`: the SET group matches empty after `\s+` gives a blank back, so the statement has no assignments and the conditions of `w` |
| Recognition.RecogniseDelete | database/parser.py:198-213 | `DELETE FROM t` with a `\w+` name matches with no WHERE group and parses to a DELETE from `t` with no conditions |
| Recognition.RecogniseDeleteWhere | database/parser.py:198-213 | `DELETE FROM t WHERE w`, for line text `w`, matches with `w` as the WHERE text and parses to a DELETE with its conditions |
| TableModel.FindColumn | database/executor.py:159-161 | finds a column so named, and finds none exactly when no column has the name |
| TableModel.ColumnNames | database/executor.py:148 | the column names in schema order |
| TableModel.KeyNameOrder | database/executor.py:113-117 | the names of the primary and unique columns, each once |
| TableModel.BucketsOf | database/executor.py:55-62 | the index the rows determine: one non-empty bucket per key among the column's non-null values, holding exactly the ids of the rows with that value |
| TableModel.BucketsOfSearch | database/executor.py:347-348 | searching that index gives the rows holding the value |
| TableModel.BucketsOfWellFormed | database/types.py:52-58 | over a column without repeated values that index is a well-formed unique index |
| TableModel.HoldersAtMostOne | database/types.py:52-53 | a column without repeated values has at most one row per value |
| TableModel.BucketsOfAdd | database/executor.py:183-185 | storing a new row changes the index as `insert` of its value does |
| TableModel.BucketsOfRemove | database/executor.py:319-321 | removing a row changes the index as `delete` of its value does |
| TableModel.BucketsOfReplace | database/executor.py:280-286 | rewriting a row leaves the index alone when the value is equal, and otherwise changes it as `update` does |
| TableModel.DistinctAfterPut | database/executor.py:441-454 | a row whose value no other row holds keeps the column free of repeated values |
| TableModel.ConstraintErrorIn | database/executor.py:434-454 | the check fails exactly when some column rejects the row, and then reports the first such column in schema order: a NULL primary key, or a non-null primary or unique value held by a row other than the excluded one |
| TableModel.CheckedRowKeepsKeysDistinct | database/executor.py:427-454 | a row that passes the check, written under a fresh id or its own id, keeps every key column free of repeated values and its primary keys non-null |
| TableModel.IndexedCondition | database/executor.py:345-346 | the first equality on an indexed column, or none when every condition is an inequality or is on an unindexed column |
| TableModel.FilterRows | database/executor.py:333-373 | the filtered rows are rows of the table, unchanged |
| TableModel.IndexLookupAgreesWithScan | database/executor.py:345-373 | for a non-null value the index path returns exactly what a scan with that one equality returns |
| TableModel.IndexLookupOfNullFindsNothing | database/executor.py:346-354 | for NULL the index path returns nothing, although a scan would return the rows holding NULL |
| TableModel.FilterRowsSound | database/executor.py:345-373 | a scan returns only rows meeting every condition; the index path only rows meeting the condition it answered |
| TableModel.FilterRowsComplete | database/executor.py:345-373 | when no indexed equality is on NULL, every row meeting all conditions is returned |
| TableModel.KeyLookupFindsRow | database/executor.py:345-354 | looking a key value up returns exactly the one row holding it |
| TableModel.IdsFrom | database/executor.py:227 | the ids of a row map in a range, each once, in ascending order |
| TableModel.ProjectRow | database/executor.py:228-233 | a row projects when it has every selected column, and then has exactly those; otherwise the error names a missing column |
| TableModel.ProjectRowFirstMissing | database/executor.py:229-233 | the error names the first missing selected column |
| TableModel.ProjectRows | database/executor.py:226-234 | one projected row per matched row, in order, or the error of the first row that fails |
| TableModel.ProjectRowsFailsOnlyWithRows | database/executor.py:226-234 | on a well-formed table the projection fails exactly when some row matched and some selected column is not in the schema |
| TableModel.QualifiedEntries | database/executor.py:406-407 | the qualified row has `<table>.<col>` for each column with its value, and nothing else |
| TableModel.QualifiedNamesDistinct | database/executor.py:406 | different columns get different qualified names |
| TableModel.JoinMatchesMembers | database/executor.py:417-423 | the right rows joined to a left row are exactly the merges with right rows whose join value equals the left one |
| TableModel.NestedJoinMembers | database/executor.py:411-423 | the nested-loop join emits exactly the merges of a left row with a non-null key and a right row with an equal key |
| TableModel.NestedJoinUnroll | database/executor.py:412-415 | a left row with a NULL key, or a missing one, contributes nothing |
| TableModel.JoinMatchesByIndex | database/executor.py:400-408 | on a right column without repeated values the scan finds the one holder of the left key, or nothing |
| TableModel.IndexJoin | database/executor.py:392-408 | the index path of the join gives the same merged rows as the nested loop |
| TableModel.IndexJoinRows | database/executor.py:400-404 | the row an index search finds exists and is non-empty, so `if right_row` never skips it |
| TableModel.Written | database/executor.py:264-274 | the assignments are applied in order; the first unknown column or type mismatch is the error; the row gains only schema columns and stays valid |
| TableModel.WrittenValues | database/executor.py:264-274 | each column of the written row holds its assigned value, or its old value when not assigned |
| TableModel.Zip | database/executor.py:157 | the column names paired with the values, position by position |
| TableModel.WithNulls | database/executor.py:170-172 | every schema column that was not supplied is added as NULL, and nothing else changes |
| TableModel.InsertedRow | database/executor.py:145-175 | a column count different from the value count is the arity error; a completed row is complete, valid and passes the check |
| TableModel.InsertSpecStores | database/executor.py:175-180 | a complete row is stored under `next_row_id`, which is returned and advanced by one |
| TableModel.InsertOutcome | database/executor.py:178-180 | a failed INSERT changes nothing; a successful one adds exactly one row, under an id above every existing one, with exactly the schema's columns, and advances the counter by one |
| TableModel.PutPreservesWellFormed | database/executor.py:179 | storing a checked complete row keeps the table invariant |
| TableModel.InsertPreservesWellFormed | database/executor.py:132-194 | INSERT keeps the table invariant: ids positive and below the counter, rows with exactly the schema's columns, primary keys non-null, key columns free of repeated values, values valid |
| TableModel.RewriteRow | database/executor.py:262-289 | rewriting one row keeps the schema, the counter and the set of ids |
| TableModel.RewriteRowPreservesWellFormed | database/executor.py:262-289 | a rewritten row that passed the check, with its own id excluded, keeps the table invariant |
| TableModel.UpdateLoopUnroll | database/executor.py:258-290 | one turn of UPDATE's loop: the row is rewritten, or the failure ends the statement with the earlier rows rewritten |
| TableModel.UpdateLoopOutcome | database/executor.py:256-296 | UPDATE keeps the invariant, the schema, the counter and the ids, and on success counts every matched row |
| TableModel.UpdateLoopRewrites | database/executor.py:258-290 | after a successful UPDATE each matched row holds its assigned values, and every other row is unchanged |
| TableModel.DeleteLoop | database/executor.py:314-325 | DELETE's loop removes the listed ids one by one, never fails, keeps the schema and the counter, and counts one per id |
| TableModel.DeleteLoopUnroll | database/executor.py:314-325 | one turn of DELETE's loop: a matched id is removed and counted, an id that was not matched is skipped |
| TableModel.DeleteLoopRemoves | database/executor.py:314-325 | the loop leaves exactly the rows whose ids it was not given |
| TableModel.AscendingIdsOf | database/executor.py:314 | the ids visited in turn are the matched ids, each exactly once |
| TableModel.DeleteSpecRemoves | database/executor.py:298-331 | DELETE removes exactly the rows the WHERE clause matches, keeps every other row, and reports how many it removed |
| TableModel.DeletePreservesWellFormed | database/executor.py:312-331 | DELETE keeps the table invariant and leaves the counter alone, so ids are not reused |
| TableModel.SubmapKeepsWellFormed | database/executor.py:324 | removing rows keeps the table invariant |
| TableModel.InsertThenLookup | database/executor.py:178-185 | after an INSERT, looking up one of its key values returns exactly the new row |
| TableModel.DeleteThenLookup | database/executor.py:314-325 | in a well-formed table, after deleting by a key value, looking that value up returns nothing |
| TableModel.ColumnOf | database/executor.py:99-104 | the column keeps the name and type; it is primary exactly when `'PRIMARY KEY'` is a constraint, and unique when `'UNIQUE'` or `'PRIMARY KEY'` is; an unknown type is the only error |
| TableModel.ColumnsOf | database/executor.py:98-105 | one column per definition, in order, or the error of a definition with an unknown type |
| TableModel.SchemaRecordRoundTrip | database/executor.py:107-111 | the saved schema record gives back the definitions, and loading it rebuilds the same columns |
| TableModel.NextIdAfter | database/executor.py:52-57 | the loaded counter is at least 1 and above every stored id; it is one past the largest id, or 1 when there are no rows |
| TableModel.NextIdAfterAdd | database/executor.py:57 | each stored row raises the counter to cover its id |
| TableModel.EmptyTableLoaded | database/executor.py:119-124 | a new table is well-formed and is what loading a schema with no rows gives |
| TableModel.ReloadKeepsRows | database/executor.py:49-69 | reloading a saved table keeps its rows and its invariant, and gives a counter no larger than the one in memory |
| Database.StoredTableWellFormed | database/executor.py:25-69 | a stored schema names valid types, and its stored rows load as a well-formed table |
| Database.LoadedFromStep | database/executor.py:21-23 | loading one more name adds its table, unless its schema list is empty |
| Database.LoadedFromAll | database/executor.py:19-23 | loading every listed name gives the tables `LoadTables` defines |
| Database.LoadIsConsistent | database/executor.py:14-23 | the freshly loaded tables agree with the files |
| Database.SaveKeepsStoreWellFormed | database/executor.py:192 | saving a well-formed table's rows keeps the files loadable |
| Database.CreatePreservesConsistency | database/executor.py:88-130 | CREATE keeps memory and files consistent |
| Database.InsertPreservesConsistency | database/executor.py:132-194 | INSERT keeps memory and files consistent |
| Database.UpdatePreservesConsistency | database/executor.py:242-296 | UPDATE keeps memory and files consistent, even when it fails part-way with rows rewritten in memory only |
| Database.DeletePreservesConsistency | database/executor.py:298-331 | DELETE keeps memory and files consistent |
| Database.InsertCommits | database/executor.py:177-194 | committing the table an INSERT produced, and saving its rows only on success, is `ExecuteInsert` |
| Database.UpdateCommits | database/executor.py:288-296 | committing the table an UPDATE produced, and saving only when it finished having changed a row, is `ExecuteUpdate` |
| Database.DeleteCommits | database/executor.py:323-331 | committing the table a DELETE produced, and saving only when a row went, is `ExecuteDelete` |
| Database.ExecutePreservesConsistency | database/executor.py:71-86 | every statement keeps memory and files consistent |
| Database.FailuresLeaveFilesAlone | database/executor.py:136-175 | a failing statement writes no file, and every failing statement but UPDATE leaves memory unchanged too |
| Database.SelectIsReadOnly | database/executor.py:196-240 | SELECT changes nothing |
| Database.InsertSurvivesRestart | database/executor.py:192 | after an INSERT into a table with columns, the files stay loadable and reloading them gives the table's rows and schema as they are in memory |
| Database.CreateSurvivesRestart | database/executor.py:126-128 | after CREATE, the table reloads from its files exactly as created, unless it has no columns, in which case it is not reloaded |
| Indexing.BuildIndexes | database/executor.py:113-117 | one fresh, empty, unique index per primary or unique column, all distinct objects |
| Indexing.AddIndex | database/executor.py:117 | filing a new empty unique index under a name adds that name and keeps every index distinct; every other entry is the one that was there |
| Indexing.InsertValue | database/executor.py:183-185 | inserting a stored row's value brings the index to the one the rows determine, and succeeds |
| Indexing.UpdateValue | database/executor.py:284-286 | updating a changed value succeeds and brings the index to the one the rewritten rows determine |
| Indexing.DeleteValue | database/executor.py:319-321 | deleting a row's value brings the index to the one the remaining rows determine |
| Indexing.IndexNewRow | database/executor.py:182-189 | after the insert loop every index mirrors the rows with the new row; no insert fails, so the rollback cannot happen |
| Indexing.IndexReplacedRow | database/executor.py:279-286 | after the update loop every index mirrors the rewritten rows; no update fails |
| Indexing.IndexRemovedRow | database/executor.py:318-321 | after the delete loop every index mirrors the rows without the deleted row |
| Indexing.IndexLoadedRow | database/executor.py:59-62 | loading a row inserts its values so that the indexes mirror the rows loaded so far |
| Indexing.LoadRows | database/executor.py:52-62 | the load loop leaves the indexes mirroring the stored rows and the counter at one past the largest id, or 1 |
| Indexing.IndexInsertedRow | database/executor.py:182-189 | the indexes mirror the table with the new row stored under `next_row_id` |
| Indexing.IndexRewrittenRow | database/executor.py:279-286 | the indexes mirror the table with the rewritten row |
| Indexing.IndexDeletedRow | database/executor.py:318-321 | the indexes mirror the table without the deleted row |
| Executor.WriteValues | database/executor.py:264-274 | the loop writing the assignments gives the row or error of `TableModel.Written` |
| Executor.FillNulls | database/executor.py:170-172 | the loop adding NULL for the missing columns gives `TableModel.WithNulls` |
| Executor.MakeColumn | database/executor.py:99-104 | a column from its definition, as `TableModel.ColumnOf` |
| Executor.BuildColumns | database/executor.py:98-111 | the columns from the definitions, and the schema record written to disk |
| Executor.ProjectOne | database/executor.py:228-233 | projection of one row, as `TableModel.ProjectRow` |
| Executor.ProjectAll | database/executor.py:226-234 | projection of the matched rows in ascending id order, as `TableModel.ProjectRows` |
| Executor.JoinRows | database/executor.py:375-425 | the joined rows of the matched left rows, in order, as the nested-loop join defines, whether or not the right column is indexed |
| Executor.LeftRowMatches | database/executor.py:392-423 | the merged rows for one left row with a non-null key, by the index or by a scan, are the same |
| Executor.MergeHolders | database/executor.py:402-408 | merging the row the index search found, when there is one |
| Executor.Table.constructor | database/executor.py:25-69 | a table built from a schema and its stored rows: schema, rows and counter as loading defines, indexes mirroring the rows |
| Executor.Table.CheckConstraints | database/executor.py:427-454 | the constraint check run on the `Index` objects gives the first violation in schema order, as `TableModel.ConstraintErrorIn` |
| Executor.Table.ApplyWhereClause | database/executor.py:333-373 | the filtered rows, as `TableModel.FilterRows` |
| Executor.Table.LookupRows | database/executor.py:350-354 | the rows whose ids the index search gave, when they exist |
| Executor.Table.IndexMatches | database/executor.py:392-408 | the index path of the join for one left row |
| Executor.Table.ScanMatches | database/executor.py:417-423 | the nested-loop path of the join for one left row |
| Executor.Table.ScanRows | database/executor.py:357-373 | the full scan: the rows meeting every condition |
| Executor.Table.CompleteRow | database/executor.py:144-175 | the row an INSERT would store, or its first error, as `TableModel.InsertedRow` |
| Executor.Table.InsertRow | database/executor.py:132-189 | the table's rows and counter change as `TableModel.InsertSpec` says, and the indexes keep mirroring the rows |
| Executor.Table.StoreRow | database/executor.py:178-189 | an admissible row is stored under the counter, the counter advances by one, and the indexes follow |
| Executor.Table.CheckedRewrite | database/executor.py:262-277 | one row of UPDATE checked against the `Index` objects, as `TableModel.RewriteRow` |
| Executor.Table.ReplaceRow | database/executor.py:279-289 | the row is replaced and its changed key values are moved in the indexes |
| Executor.Table.UpdateStep | database/executor.py:258-290 | one turn of the update loop advances `TableModel.UpdateLoop` by one id |
| Executor.Table.UpdateRows | database/executor.py:242-296 | the table changes as `TableModel.UpdateSpec` says, with the indexes mirroring the rows, including after a failure part-way |
| Executor.Table.RemoveRow | database/executor.py:318-324 | the row and its index entries go; the counter stays |
| Executor.Table.DeleteStep | database/executor.py:314-325 | one pass of DELETE's row loop removes a matched row from the table and its indexes and counts it, as `TableModel.DeleteLoop` does for that id |
| Executor.Table.DeleteRows | database/executor.py:298-331 | the table changes as `TableModel.DeleteSpec` says and the count is the number of rows removed |
| Executor.LoadTable | database/executor.py:25-69 | a loaded table has the columns of its schema, its stored rows and the counter loading computes |
| Executor.LoadExistingTables | database/executor.py:19-23 | the table registry holds exactly the tables `LoadTables` defines, in separate objects |
| Executor.LoadNext | database/executor.py:22-30 | one name of the loop: a non-empty schema adds its loaded table in objects of its own, an empty one adds nothing |
| Executor.QueryExecutor.constructor | database/executor.py:14-17 | the executor holds the tables loaded from the data directory |
| Executor.QueryExecutor.Create | database/executor.py:88-130 | the registry and the files change as `Database.ExecuteCreate` says |
| Executor.QueryExecutor.InsertInto | database/executor.py:139-189 | the named table changes as `TableModel.InsertSpec` says, and every other table stays as it was |
| Executor.QueryExecutor.Insert | database/executor.py:132-194 | the registry and the files change as `Database.ExecuteInsert` says |
| Executor.QueryExecutor.UpdateIn | database/executor.py:249-290 | the named table changes as `TableModel.UpdateSpec` says, and every other table stays as it was |
| Executor.QueryExecutor.Update | database/executor.py:242-296 | the registry and the files change as `Database.ExecuteUpdate` says |
| Executor.QueryExecutor.DeleteFrom | database/executor.py:305-325 | the named table changes as `TableModel.DeleteSpec` says, and every other table stays as it was |
| Executor.QueryExecutor.Delete | database/executor.py:298-331 | the registry and the files change as `Database.ExecuteDelete` says |
| Executor.QueryExecutor.Select | database/executor.py:196-240 | the result is `Database.ExecuteSelect`: the projected matched rows, or the joined rows whatever the projection |
| Executor.QueryExecutor.Execute | database/executor.py:71-86 | every statement changes the executor as `Database.Execute` says, and the executor stays consistent with its files |
| Engine.ParseErrorChangesNothing | database/engine.py:33-39 | text that does not parse fails with the parser's error and changes nothing |
| Engine.RunPreservesConsistency | database/engine.py:19-39 | whatever the text, memory and files stay consistent |
| Engine.TableInfoOf | database/engine.py:45-62 | an unknown table fails; otherwise one entry per column, in schema order, with its name, a type name that reads back as its type, and its primary and unique flags, plus the number of rows |
| Engine.TableInfoIgnoresStore | database/engine.py:45-62 | the description depends on the tables in memory only |
| Engine.StatementKeepsOtherInfo | database/engine.py:45-62 | a statement changes the description of no table but the one it names |
| Engine.ListedTables | database/engine.py:41-43 | the names listed are exactly the tables with a schema file |
| Engine.TablesInMemoryAreListed | database/engine.py:41-43 | every table in memory of a consistent database is listed |
| Engine.DatabaseEngine.constructor | database/engine.py:14-17 | the engine's executor holds the tables loaded from the data directory |
| Engine.DatabaseEngine.Execute | database/engine.py:19-39 | the engine changes as `Engine.Run` says: the parser's error, or the effect of the parsed statement |
| Engine.DatabaseEngine.ListTables | database/engine.py:41-43 | the names with a schema file |
| Engine.DatabaseEngine.GetTableInfo | database/engine.py:45-62 | the description `Engine.TableInfoOf` defines, with no state changed |

## Left out

- **Storage.** The data directory (`database/storage.py`) is the value `Database.Store`:
  a map from table name to schema record and a map from table name to rows. JSON, pickle,
  the file system and `Path.glob` are not modelled.
- **Corrupt files.** Loading assumes files as the executor writes them
  (`Database.StoreWellFormed`). A stored schema with an unknown type, or rows that break
  the table invariant, is not modelled. Nor is a schema file with columns whose data file
  is missing: the source then keeps `{}` as the table's data (`database/executor.py:49`,
  `database/executor.py:66`), and every later statement that reads the table's rows
  raises `KeyError`. CREATE TABLE always writes both files (`database/executor.py:126-127`).
- **`list_tables` order.** `list_tables` returns names in directory order; the model
  returns a set.
- **Message texts.** The texts of the results and errors are not modelled; each error
  records what its message names.
- **Floats.** A float literal is kept as its text (`Float`). It is recognised by the
  syntax Python's `float()` accepts for ASCII input. Float arithmetic and Python's
  equality `1.0 == 1` between a float and an int are not modelled, so two floats are
  equal here only when their texts are equal.
- **Unicode.** `upper()`, `isdigit()` and `\w` are modelled on ASCII; their Unicode
  extensions are not.
- **Regular expressions.** Python's `re` engine is not modelled. Each pattern constant is
  a hand-written recogniser that follows its backtracking:
  - greedy `\w+` and `\s+`;
  - lazy groups as the shortest match;
  - `\s+` before a lazy group gives characters back when the group cannot match after the
    whole run, so that the group can match empty (`EmptyWhereAt`, `EmptySetAt`);
  - `$` before an optional final newline.

  That these recognisers agree with `re` on every input is a design argument, not a
  theorem. `Recognition` proves what they yield on the statement shapes listed in the
  table above.
- **Unreachable branches.**
  - The rollback of INSERT (`database/executor.py:185-189`) and the duplicate error of
    UPDATE's index loop (`database/executor.py:285-286`) are proved unreachable, so they
    are not modelled.
  - The unsupported-type branch of `execute` (`database/executor.py:85-86`) cannot be
    reached, because statements form a closed datatype.
  - The `!=` branch of the WHERE decoder is proved unreachable.
- **Row-id keys.** Row-ids are stored as strings in the source (`str(row_id)`) and are
  natural numbers here; the conversion round-trips.
- **Key order in rows.** Rows are maps, so the order of the keys in a result row is not
  modelled.
- **Non-unique indexes.** The executor never creates an index that is not unique. The
  `Index` class models the non-unique case as well, but no other member uses it.
- **HTTP and the console.** The API server, the web app and the REPL are callers of the
  engine and are not part of this model.
