/**
 * Values, column definitions and the hash index of the engine (database/types.py).
 *
 * A value is what a table cell or a query literal holds. Python compares and hashes
 * `True` as `1` and `False` as `0`, so two values are equal exactly when their
 * `ValueKey`s are; the index is keyed by `ValueKey` for the same reason.
 */
module Types {
  import opened Wrappers

  /** A cell or literal value: None, int, bool, str, or a float the parser produced.
      A float is kept as the text it was parsed from; its numeric value is not modelled. */
  datatype Value = Null | Int(i: int) | Bool(b: bool) | Str(s: string) | Float(text: string)

  /** The equality class of a value under Python's `==` and `hash`. */
  datatype ValueKey = NullKey | IntKey(n: int) | StrKey(s: string) | FloatKey(text: string)

  function KeyOf(v: Value): ValueKey {
    match v
    case Null => NullKey
    case Int(i) => IntKey(i)
    case Bool(b) => IntKey(if b then 1 else 0)
    case Str(s) => StrKey(s)
    case Float(t) => FloatKey(t)
  }

  /** Python's `a == b` on two values. */
  predicate Equal(a: Value, b: Value) {
    KeyOf(a) == KeyOf(b)
  }

  /** Only None has the key of None. */
  lemma NullKeyOnlyForNull(v: Value)
    ensures KeyOf(v) == NullKey <==> v.Null?
  {
  }

  /** `True == 1` and `False == 0`, but a bool never equals a string. */
  lemma BoolEqualsInt(b: bool)
    ensures Equal(Bool(b), Int(if b then 1 else 0))
    ensures forall s: string :: !Equal(Bool(b), Str(s))
  {
  }

  /** A row maps column names to values. */
  type Row = map<string, Value>

  /** `row.get(name)`: a missing column reads as None. */
  function Get(row: Row, name: string): Value {
    if name in row then row[name] else Null
  }

  /** The three declared column types. */
  datatype DataType = INT | TEXT | BOOL

  /** `DataType.value`: the name a type is stored under. */
  function TypeName(t: DataType): string {
    match t
    case INT => "INT"
    case TEXT => "TEXT"
    case BOOL => "BOOL"
  }

  /** `DataType(name)`: the enum lookup by value, case-sensitive; None where Python raises. */
  function ParseDataType(name: string): (r: Option<DataType>)
    ensures r.Some? ==> TypeName(r.value) == name
  {
    if name == "INT" then Some(INT)
    else if name == "TEXT" then Some(TEXT)
    else if name == "BOOL" then Some(BOOL)
    else None
  }

  /** Every type survives the round trip through its stored name. */
  lemma TypeNameRoundTrip(t: DataType)
    ensures ParseDataType(TypeName(t)) == Some(t)
  {
  }

  /** A column of a table. */
  datatype Column = Column(name: string, dtype: DataType, isPrimary: bool, isUnique: bool)

  /** `Column.validate_value`. None is valid in every column; otherwise the value's runtime
      type must be the declared one, where Python's `bool` counts as an `int`. */
  function ValidateValue(col: Column, v: Value): (ok: bool)
    ensures v.Null? ==> ok
    ensures v.Float? ==> !ok
    ensures v.Int? ==> (ok <==> col.dtype == INT)
    ensures v.Str? ==> (ok <==> col.dtype == TEXT)
    ensures v.Bool? ==> (ok <==> col.dtype != TEXT)
  {
    if v.Null? then true
    else match col.dtype
      case INT => v.Int? || v.Bool?
      case TEXT => v.Str?
      case BOOL => v.Bool?
  }

  /** Whatever validates in a BOOL column validates in an INT column too. */
  lemma BoolColumnValuesFitIntColumn(name: string, v: Value)
    requires ValidateValue(Column(name, BOOL, false, false), v)
    ensures ValidateValue(Column(name, INT, false, false), v)
  {
  }

  /** The buckets of an index: value key -> set of row-ids (`Index._index`). */
  type Buckets = map<ValueKey, set<nat>>

  /** The index invariant: None is never a key, no bucket is empty, and a unique index
      holds at most one row-id per value. */
  ghost predicate WellFormedBuckets(b: Buckets, unique: bool) {
    && NullKey !in b
    && (forall k | k in b :: b[k] != {})
    && (unique ==> forall k | k in b :: |b[k]| <= 1)
  }

  /** `Index.search` on buckets `b`. */
  function SearchIn(b: Buckets, v: Value): set<nat> {
    if KeyOf(v) in b then b[KeyOf(v)] else {}
  }

  /** The buckets after `_index[k].add(id)`, creating the bucket when absent. */
  function Added(b: Buckets, k: ValueKey, id: nat): (r: Buckets)
    ensures r.Keys == b.Keys + {k}
    ensures id in r[k] && forall j :: j in r[k] <==> j == id || (k in b && j in b[k])
    ensures forall k' | k' in b && k' != k :: r[k'] == b[k']
  {
    b[k := (if k in b then b[k] else {}) + {id}]
  }

  /** The buckets after `_index[k].discard(id)`, dropping the bucket when it empties;
      unchanged when `k` is absent. */
  function Removed(b: Buckets, k: ValueKey, id: nat): (r: Buckets)
    ensures k !in b ==> r == b
    ensures k in b ==> if b[k] - {id} == {} then r == b - {k} else r == b[k := b[k] - {id}]
  {
    if k in b then
      if b[k] - {id} == {} then b - {k} else b[k := b[k] - {id}]
    else b
  }

  /** Removing keeps the index invariant. */
  lemma RemovedWellFormed(b: Buckets, unique: bool, k: ValueKey, id: nat)
    requires WellFormedBuckets(b, unique)
    ensures WellFormedBuckets(Removed(b, k, id), unique)
    ensures forall v: Value :: SearchIn(Removed(b, k, id), v) ==
                               if KeyOf(v) == k then SearchIn(b, v) - {id} else SearchIn(b, v)
  {
    var r := Removed(b, k, id);
    if k in b && b[k] - {id} != {} {
      assert |r[k]| <= |b[k]| by {
        assert r[k] <= b[k];
        SubsetCardinality(r[k], b[k]);
      }
    }
  }

  lemma SubsetCardinality(a: set<nat>, b: set<nat>)
    requires a <= b
    ensures |a| <= |b|
  {
    assert b == a + (b - a);
  }

  /** A hash index over one column (`Index`). The executor only ever builds unique ones. */
  class Index {
    const columnName: string
    const isUnique: bool
    var buckets: Buckets

    ghost predicate Valid()
      reads this
    {
      WellFormedBuckets(buckets, isUnique)
    }

    constructor (columnName: string, isUnique: bool)
      ensures Valid()
      ensures this.columnName == columnName && this.isUnique == isUnique
      ensures buckets == map[]
    {
      this.columnName := columnName;
      this.isUnique := isUnique;
      buckets := map[];
    }

    /** `Index.insert`: None is accepted and not indexed; a unique index refuses a value
        whose bucket is non-empty and stays unchanged; otherwise the id joins the bucket. */
    method Insert(v: Value, rowId: nat) returns (ok: bool)
      requires Valid()
      modifies this
      ensures Valid()
      ensures ok <==> v.Null? || !isUnique || SearchIn(old(buckets), v) == {}
      ensures !ok || v.Null? ==> buckets == old(buckets)
      ensures ok && !v.Null? ==> buckets == Added(old(buckets), KeyOf(v), rowId)
      ensures ok && !v.Null? ==> SearchIn(buckets, v) == SearchIn(old(buckets), v) + {rowId}
    {
      if v.Null? {
        return true;
      }
      var k := KeyOf(v);
      if isUnique && k in buckets && |buckets[k]| > 0 {
        return false;
      }
      buckets := Added(buckets, k, rowId);
      ok := true;
    }

    /** `Index.delete`: the id leaves the value's bucket, which is dropped once empty;
        nothing happens when the value is absent. */
    method Delete(v: Value, rowId: nat)
      requires Valid()
      modifies this
      ensures Valid()
      ensures buckets == Removed(old(buckets), KeyOf(v), rowId)
      ensures SearchIn(buckets, v) == SearchIn(old(buckets), v) - {rowId}
      ensures forall w: Value :: KeyOf(w) != KeyOf(v) ==> SearchIn(buckets, w) == SearchIn(old(buckets), w)
    {
      RemovedWellFormed(buckets, isUnique, KeyOf(v), rowId);
      var k := KeyOf(v);
      if k in buckets {
        var rest := buckets[k] - {rowId};
        if rest == {} {
          buckets := buckets - {k};
        } else {
          buckets := buckets[k := rest];
        }
      }
    }

    /** `Index.update`: delete the old entry, then insert the new one. When the insert
        fails the deletion has already happened. */
    method Update(oldValue: Value, newValue: Value, rowId: nat) returns (ok: bool)
      requires Valid()
      modifies this
      ensures Valid()
      ensures var mid := Removed(old(buckets), KeyOf(oldValue), rowId);
        && (ok <==> newValue.Null? || !isUnique || SearchIn(mid, newValue) == {})
        && buckets == if ok && !newValue.Null? then Added(mid, KeyOf(newValue), rowId) else mid
    {
      Delete(oldValue, rowId);
      ok := Insert(newValue, rowId);
    }

    /** `Index.search`: the ids under the value, empty when it is absent. */
    function Search(v: Value): (ids: set<nat>)
      reads this
      ensures KeyOf(v) !in buckets ==> ids == {}
      ensures Valid() && isUnique ==> |ids| <= 1
      ensures Valid() && v.Null? ==> ids == {}
    {
      SearchIn(buckets, v)
    }

    /** `Index.has_value`; under the invariant it holds exactly when the search is non-empty. */
    function HasValue(v: Value): (r: bool)
      reads this
      ensures Valid() ==> (r <==> Search(v) != {})
    {
      KeyOf(v) in buckets
    }
  }
}
