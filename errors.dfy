/**
 * The failures the engine reports. The parser raises `SyntaxError` for text that no
 * statement pattern accepts, and Python raises `ValueError` or `IndexError` on its own
 * in two places of the parser; the executor raises `ValueError` for everything it
 * validates. Each case records what the message of the source names.
 */
module Errors {
  import opened Types

  /** Which statement pattern or clause did not match. */
  datatype SyntaxReason =
    | UnsupportedQuery   // no known leading keyword
    | InvalidCreateTable
    | InvalidInsert
    | InvalidSelect
    | InvalidUpdate
    | InvalidDelete
    | InvalidJoin        // the ON text does not split into two sides at `=`

  datatype Error =
    | SyntaxError(reason: SyntaxReason)
    | UnpackError        // a `ValueError` from tuple unpacking in the parser
    | MissingColumnType  // the `IndexError` of a column definition with a single word
    | TableExists(table: string)
    | NoSuchTable(table: string)
    | InvalidDataType(typeName: string)
    | ArityMismatch(columns: nat, values: nat)
    | UnknownColumn(column: string)
    | TypeMismatch(column: string, expected: DataType)
    | NullPrimaryKey(column: string)
    | DuplicateValue(column: string, value: Value)

  /** The Python exception class that carries each error. */
  datatype ExceptionClass = PySyntaxError | PyValueError | PyIndexError

  function ClassOf(e: Error): ExceptionClass {
    match e
    case SyntaxError(_) => PySyntaxError
    case MissingColumnType => PyIndexError
    case _ => PyValueError
  }

  /** A computation that either succeeds or raises. */
  datatype Result<+T> = Ok(value: T) | Err(error: Error)

  /** The items already produced by a loop in front of the result of the rest of it. */
  function Prepend<T>(done: seq<T>, r: Result<seq<T>>): (p: Result<seq<T>>)
    ensures done == [] ==> p == r
  {
    match r
    case Ok(rest) => assert done == [] ==> done + rest == rest; Ok(done + rest)
    case Err(e) => Err(e)
  }

  /** Putting `done` in front of a result that already starts with `c` is putting
      `done + [c]` in front of the rest. */
  lemma PrependThen<T>(done: seq<T>, c: T, rest: Result<seq<T>>)
    ensures Prepend(done, Prepend([c], rest)) == Prepend(done + [c], rest)
  {
    match rest
    case Err(e) =>
    case Ok(ds) => assert done + ([c] + ds) == done + [c] + ds;
  }

  lemma AppendAssoc<T>(a: seq<T>, b: seq<T>, c: seq<T>)
    ensures a + b + c == a + (b + c)
  {
  }
}
