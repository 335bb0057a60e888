/**
 * The query language as pure functions (database/parser.py): the five statement
 * records, the literal decoder, the top-level comma splitter, the clause decoders,
 * and one recogniser per statement pattern. `Parsed(text)` is the result the
 * parser's methods are proved to return.
 *
 * The recognisers replace the regular expressions of the source. Each follows the
 * order in which Python's backtracking matcher tries the alternatives: a `\s+` or
 * `\w+` that is followed by a literal or by a character class it cannot share a
 * character with is always taken whole; a lazy group `(.*?)` becomes a search for
 * the shortest text after which the rest of the pattern matches; a greedy `(.*)`
 * before `\)` ends at the last `)`; `.` does not cross a newline unless the pattern
 * is DOTALL; `$` matches at the end or just before a final newline.
 */
module Grammar {
  import opened Wrappers
  import opened Types
  import opened Text
  import opened Errors

  // ---------------------------------------------------------------------------
  // Statement records
  // ---------------------------------------------------------------------------

  /** One column of CREATE TABLE: its name, upper-cased type word and constraint words. */
  datatype ColumnDef = ColumnDef(name: string, typeName: string, constraints: seq<string>)

  datatype Operator = Eq | Ne

  datatype Condition = Condition(column: string, op: Operator, value: Value)

  /** `INNER JOIN <table> ON <t1>.<leftColumn> = <t2>.<rightColumn>`. */
  datatype JoinSpec = JoinSpec(table: string, leftColumn: string, rightColumn: string)

  /** The five parsed query dictionaries. `None` stands for a missing WHERE, column list or join. */
  datatype Statement =
    | CreateTable(table: string, defs: seq<ColumnDef>)
    | Insert(table: string, columns: Option<seq<string>>, values: seq<Value>)
    | Select(table: string, projection: seq<string>, where: Option<seq<Condition>>, join: Option<JoinSpec>)
    | Update(table: string, assignments: seq<(string, Value)>, where: Option<seq<Condition>>)
    | Delete(table: string, where: Option<seq<Condition>>)

  // ---------------------------------------------------------------------------
  // Literal values (`_parse_value`)
  // ---------------------------------------------------------------------------

  /** `int(s)` of a string of ASCII digits. */
  function DigitsValue(s: string): nat
    requires forall i | 0 <= i < |s| :: IsDigit(s[i])
    decreases |s|
  {
    if |s| == 0 then 0
    else
      assert IsDigit(s[|s| - 1]);
      DigitsValue(s[..|s| - 1]) * 10 + (s[|s| - 1] as int - '0' as int)
  }

  function DigitChar(d: nat): char
    requires d < 10
  {
    ('0' as int + d) as char
  }

  /** `str(n)` for a non-negative integer. */
  function NatText(n: nat): (s: string)
    ensures AllDigits(s)
    decreases n
  {
    if n < 10 then [DigitChar(n)] else NatText(n / 10) + [DigitChar(n % 10)]
  }

  /** `str(n)`: the decimal text of an integer. */
  function IntText(n: int): string {
    if n < 0 then "-" + NatText(-n) else NatText(n)
  }

  /** Python's `digitpart`: a digit, then digits each optionally preceded by one underscore. */
  predicate DigitPart(s: string) {
    |s| > 0 && IsDigit(s[0]) && DigitTail(s[1..])
  }

  /** `(["_"] digit)*`. */
  predicate DigitTail(s: string)
    decreases |s|
  {
    || |s| == 0
    || (IsDigit(s[0]) && DigitTail(s[1..]))
    || (|s| >= 2 && s[0] == '_' && IsDigit(s[1]) && DigitTail(s[2..]))
  }

  /** Python's `pointfloat` or `digitpart`: the part of a float before any exponent. */
  predicate Mantissa(m: string) {
    match IndexOf(m, '.')
    case None => DigitPart(m)
    case Some(i) =>
      var a, b := m[..i], m[i + 1..];
      (a == "" || DigitPart(a)) && (b == "" || DigitPart(b)) && (a != "" || b != "")
  }

  /** The position of the first `e` or `E`. */
  function ExponentMark(s: string): (r: Option<nat>)
    ensures r.Some? ==> r.value < |s|
  {
    if |s| == 0 then None
    else if s[0] == 'e' || s[0] == 'E' then Some(0)
    else match ExponentMark(s[1..])
      case None => None
      case Some(i) => Some(i + 1)
  }

  function UnsignedPart(s: string): string {
    if |s| > 0 && (s[0] == '+' || s[0] == '-') then s[1..] else s
  }

  /** The text `float(s)` accepts, once surrounding whitespace is gone. */
  predicate FloatText(s: string) {
    var body := UnsignedPart(s);
    var up := Upper(body);
    up == "INF" || up == "INFINITY" || up == "NAN" ||
    match ExponentMark(body)
    case None => Mantissa(body)
    case Some(e) => Mantissa(body[..e]) && DigitPart(UnsignedPart(body[e + 1..]))
  }

  /** `s[1:-1]`, which is empty for a string of length one. */
  function Unquote(s: string): string {
    if |s| >= 2 then s[1..|s| - 1] else ""
  }

  /** `_parse_value`: NULL, TRUE and FALSE in any case; a single- or double-quoted string
      without escapes; an integer with an optional `-`; a float; otherwise the raw text. */
  function ParseValue(text: string): Value {
    var s := Strip(text);
    if Upper(s) == "NULL" then Null
    else if Upper(s) == "TRUE" then Bool(true)
    else if Upper(s) == "FALSE" then Bool(false)
    else if |s| > 0 && s[0] == '\'' && s[|s| - 1] == '\'' then Str(Unquote(s))
    else if |s| > 0 && s[0] == '"' && s[|s| - 1] == '"' then Str(Unquote(s))
    else if AllDigits(s) then Int(DigitsValue(s))
    else if |s| > 0 && s[0] == '-' && AllDigits(s[1..]) then Int(-(DigitsValue(s[1..]) as int))
    else if FloatText(s) then Float(s)
    else Str(s)
  }

  /** `_parse_value` strips its argument first, so stripping beforehand changes nothing. */
  lemma ParseValueOfStripped(text: string)
    ensures ParseValue(Strip(text)) == ParseValue(text)
  {
    StripIdempotent(text);
  }

  lemma {:induction false} NatTextValue(n: nat)
    ensures DigitsValue(NatText(n)) == n
    decreases n
  {
    if n >= 10 {
      NatTextValue(n / 10);
      var s := NatText(n);
      assert s[..|s| - 1] == NatText(n / 10);
    }
  }

  /** The decimal text of any integer parses back to that integer. */
  lemma IntRoundTrip(n: int)
    ensures ParseValue(IntText(n)) == Int(n)
  {
    var m: nat := if n < 0 then -n else n;
    NatTextValue(m);
    if n < 0 {
      NegativeDigitsParse(NatText(m));
    } else {
      DigitsParse(NatText(m));
    }
  }

  /** Digits alone are read as the integer they spell. */
  lemma DigitsParse(s: string)
    requires AllDigits(s)
    ensures ParseValue(s) == Int(DigitsValue(s))
  {
    StripUnpadded(s);
    NoKeyword(s);
    assert s[0] != '\'' && s[0] != '"';
  }

  /** A minus sign and digits are read as the negated integer. */
  lemma NegativeDigitsParse(s: string)
    requires AllDigits(s)
    ensures ParseValue("-" + s) == Int(-(DigitsValue(s) as int))
  {
    var t := "-" + s;
    assert t[0] == '-' && t[1..] == s;
    StripUnpadded(t);
    NoKeyword(t);
    assert !AllDigits(t) by { assert !IsDigit(t[0]); }
    NegativeDigitsValue(t);
  }

  /** The minus branch of `_parse_value`, reached by a stripped token that is no keyword,
      not quoted and not all digits. */
  lemma NegativeDigitsValue(t: string)
    requires Strip(t) == t && |t| > 1 && t[0] == '-' && AllDigits(t[1..]) && !AllDigits(t)
    requires Upper(t) != "NULL" && Upper(t) != "TRUE" && Upper(t) != "FALSE"
    ensures ParseValue(t) == Int(-(DigitsValue(t[1..]) as int))
  {
  }

  /** Text that starts with neither N, T nor F in either case is no keyword literal. */
  lemma NoKeyword(s: string)
    requires |s| > 0 && ToUpper(s[0]) !in "NTF"
    ensures Upper(s) != "NULL" && Upper(s) != "TRUE" && Upper(s) != "FALSE"
  {
    assert Upper(s)[0] == ToUpper(s[0]);
  }

  /** A single-quoted text parses to exactly its inside: quotes are not escapes. */
  lemma SingleQuotedRoundTrip(s: string)
    ensures ParseValue("'" + s + "'") == Str(s)
  {
    var t := "'" + s + "'";
    StripUnpadded(t);
    assert Upper(t)[0] == '\'';
    assert Unquote(t) == s;
  }

  /** A double-quoted text parses to exactly its inside. */
  lemma DoubleQuotedRoundTrip(s: string)
    ensures ParseValue("\"" + s + "\"") == Str(s)
  {
    var t := "\"" + s + "\"";
    StripUnpadded(t);
    assert Upper(t)[0] == '"';
    assert Unquote(t) == s;
  }

  /** The keywords are recognised in any case and with surrounding whitespace. */
  lemma KeywordLiterals(text: string)
    ensures Upper(Strip(text)) == "NULL" ==> ParseValue(text) == Null
    ensures Upper(Strip(text)) == "TRUE" ==> ParseValue(text) == Bool(true)
    ensures Upper(Strip(text)) == "FALSE" ==> ParseValue(text) == Bool(false)
  {
  }

  // ---------------------------------------------------------------------------
  // The top-level comma splitter (`_split_by_commas`)
  // ---------------------------------------------------------------------------

  function ParenDelta(c: char): int {
    if c == '(' then 1 else if c == ')' then -1 else 0
  }

  /** The parenthesis depth after `s`: opening minus closing parentheses. */
  function Depth(s: string): int
    decreases |s|
  {
    if |s| == 0 then 0 else Depth(s[..|s| - 1]) + ParenDelta(s[|s| - 1])
  }

  /** A comma at depth exactly zero, where the splitter cuts. */
  predicate TopComma(s: string, i: nat)
    requires i < |s|
  {
    s[i] == ',' && Depth(s[..i]) == 0
  }

  predicate NoTopComma(s: string) {
    forall i | 0 <= i < |s| :: !TopComma(s, i)
  }

  /** The first top-level comma at or after `j`. */
  function FirstTopComma(s: string, j: nat): (r: Option<nat>)
    requires j <= |s|
    ensures r.Some? ==> j <= r.value < |s| && TopComma(s, r.value)
    ensures r.Some? ==> forall k | j <= k < r.value :: !TopComma(s, k)
    ensures r.None? ==> forall k | j <= k < |s| :: !TopComma(s, k)
    decreases |s| - j
  {
    if j == |s| then None
    else if TopComma(s, j) then Some(j)
    else FirstTopComma(s, j + 1)
  }

  /** The pieces between the top-level commas, each stripped; the piece after the last
      comma only when the text there is not empty. Commas inside quotes are cut too. */
  function SplitByCommas(s: string): (pieces: seq<string>)
    decreases |s|
  {
    match FirstTopComma(s, 0)
    case None => if |s| == 0 then [] else [Strip(s)]
    case Some(i) => [Strip(s[..i])] + SplitByCommas(s[i + 1..])
  }

  /** Every piece comes out stripped. */
  lemma {:induction false} SplitPiecesStripped(s: string)
    ensures forall p | p in SplitByCommas(s) :: Strip(p) == p
    decreases |s|
  {
    match FirstTopComma(s, 0)
    case None =>
      StripIdempotent(s);
    case Some(i) =>
      SplitAtFirst(s, i);
      StripIdempotent(s[..i]);
      SplitPiecesStripped(s[i + 1..]);
      StrippedCons(Strip(s[..i]), SplitByCommas(s[i + 1..]));
  }

  /** The first top-level comma ends the first piece. */
  lemma SplitAtFirst(s: string, i: nat)
    requires FirstTopComma(s, 0) == Some(i)
    ensures SplitByCommas(s) == [Strip(s[..i])] + SplitByCommas(s[i + 1..])
  {
  }

  lemma StrippedCons(first: string, rest: seq<string>)
    requires Strip(first) == first && forall p | p in rest :: Strip(p) == p
    ensures forall p | p in [first] + rest :: Strip(p) == p
  {
  }

  lemma DepthAppend(s: string, c: char)
    ensures Depth(s + [c]) == Depth(s) + ParenDelta(c)
  {
    assert (s + [c])[..|s|] == s;
  }

  /** Text without a top-level comma is one piece, or none when it is empty. */
  lemma SplitWithoutTopComma(s: string)
    requires NoTopComma(s)
    ensures SplitByCommas(s) == if |s| == 0 then [] else [Strip(s)]
  {
  }

  /** Cutting at a top-level comma that follows comma-free text. */
  lemma SplitAtLeadingComma(cur: string, rest: string)
    requires NoTopComma(cur) && Depth(cur) == 0
    ensures SplitByCommas(cur + [','] + rest) == [Strip(cur)] + SplitByCommas(rest)
  {
    var s := cur + [','] + rest;
    assert s[..|cur|] == cur;
    forall k | 0 <= k < |cur|
      ensures !TopComma(s, k)
    {
      assert s[..k] == cur[..k];
      assert !TopComma(cur, k);
    }
    assert TopComma(s, |cur|);
    assert FirstTopComma(s, 0) == Some(|cur|) by {
      FirstTopCommaIs(s, 0, |cur|);
    }
    assert s[|cur| + 1..] == rest;
  }

  lemma {:induction false} FirstTopCommaIs(s: string, j: nat, i: nat)
    requires j <= i < |s| && TopComma(s, i)
    requires forall k | j <= k < i :: !TopComma(s, k)
    ensures FirstTopComma(s, j) == Some(i)
    decreases i - j
  {
    if j < i {
      FirstTopCommaIs(s, j + 1, i);
    }
  }

  /** Extending comma-free text by a character that is not a top-level comma. */
  lemma NoTopCommaExtend(cur: string, c: char)
    requires NoTopComma(cur)
    requires !(c == ',' && Depth(cur) == 0)
    ensures NoTopComma(cur + [c])
  {
    var s := cur + [c];
    forall k | 0 <= k < |s|
      ensures !TopComma(s, k)
    {
      assert s[..k] == if k < |cur| then cur[..k] else cur;
      if k < |cur| {
        assert !TopComma(cur, k);
      }
    }
  }

  // ---------------------------------------------------------------------------
  // Clause decoders
  // ---------------------------------------------------------------------------

  /** One WHERE term: split at its first `=`, always with operator `=`. The `!=` branch of
      the source cannot be reached, because a term that contains `!=` contains `=`. */
  function ConditionOf(term: string): Option<Condition> {
    match IndexOf(term, '=')
    case Some(i) => Some(Condition(Strip(term[..i]), Eq, ParseValue(Strip(term[i + 1..]))))
    case None =>
      if ContainsNotEqual(term) then NotEqualContainsEqual(term); assert false; None
      else None
  }

  /** `_parse_where_clause` over the split terms: terms without `=` are dropped. */
  function Conditions(terms: seq<string>): (conds: seq<Condition>)
    ensures |conds| <= |terms|
    decreases |terms|
  {
    if |terms| == 0 then []
    else Conditions(terms[..|terms| - 1]) + Kept(ConditionOf(terms[|terms| - 1]))
  }

  /** The condition of a term, when it has one. */
  function Kept(c: Option<Condition>): (r: seq<Condition>)
    ensures |r| <= 1
  {
    if c.Some? then [c.value] else []
  }

  /** One more term adds its condition, if any, at the end. */
  lemma ConditionsSnoc(terms: seq<string>, i: nat)
    requires i < |terms|
    ensures Conditions(terms[..i + 1]) == Conditions(terms[..i]) + Kept(ConditionOf(terms[i]))
  {
    assert terms[..i + 1][..i] == terms[..i];
  }

  function WhereConditions(s: string): seq<Condition> {
    Conditions(SplitByCommas(s))
  }

  /** `[c.upper() for c in words]`. */
  function UpperAll(words: seq<string>): (r: seq<string>)
    ensures |r| == |words| && forall i | 0 <= i < |words| :: r[i] == Upper(words[i])
  {
    seq(|words|, i requires 0 <= i < |words| => Upper(words[i]))
  }

  /** One CREATE TABLE column definition: name, upper-cased type, upper-cased constraint
      words. A definition of a single word raises `IndexError`. */
  function ColumnDefOf(piece: string): Result<ColumnDef> {
    var parts := SplitWhitespace(piece);
    if |parts| < 2 then Err(MissingColumnType)
    else Ok(ColumnDef(parts[0], Upper(parts[1]), UpperAll(parts[2..])))
  }

  /** The column definitions of CREATE TABLE, skipping empty pieces; the first failure wins. */
  function ColumnDefs(pieces: seq<string>): Result<seq<ColumnDef>> {
    if |pieces| == 0 then Ok([])
    else if Strip(pieces[0]) == "" then ColumnDefs(pieces[1..])
    else match ColumnDefOf(Strip(pieces[0]))
      case Err(e) => Err(e)
      case Ok(d) =>
        match ColumnDefs(pieces[1..])
        case Err(e) => Err(e)
        case Ok(ds) => Ok([d] + ds)
  }

  /** `assignments[col] = value` on a dict kept as a list of pairs in insertion order: an
      existing column keeps its place and takes the new value. */
  function Assign(pairs: seq<(string, Value)>, col: string, v: Value): (r: seq<(string, Value)>)
    ensures |r| == |pairs| || |r| == |pairs| + 1
  {
    if |pairs| == 0 then [(col, v)]
    else if pairs[0].0 == col then [(col, v)] + pairs[1..]
    else [pairs[0]] + Assign(pairs[1..], col, v)
  }

  /** The value a dict kept as pairs holds for `col`, if any. */
  function Lookup(pairs: seq<(string, Value)>, col: string): Option<Value> {
    if |pairs| == 0 then None
    else if pairs[0].0 == col then Some(pairs[0].1)
    else Lookup(pairs[1..], col)
  }

  /** A dict kept as pairs never names a column twice. */
  predicate DistinctColumns(pairs: seq<(string, Value)>) {
    |pairs| == 0 || (Lookup(pairs[1..], pairs[0].0).None? && DistinctColumns(pairs[1..]))
  }

  /** Assigning makes `col` read `v` and leaves every other column as it was. */
  lemma {:induction false} AssignLookup(pairs: seq<(string, Value)>, col: string, v: Value)
    ensures forall c :: Lookup(Assign(pairs, col, v), c) == if c == col then Some(v) else Lookup(pairs, c)
  {
    if |pairs| > 0 && pairs[0].0 != col {
      AssignLookup(pairs[1..], col, v);
    } else if |pairs| > 0 {
      assert Assign(pairs, col, v)[1..] == pairs[1..];
    }
  }

  /** Assigning never makes a column appear twice. */
  lemma {:induction false} AssignDistinct(pairs: seq<(string, Value)>, col: string, v: Value)
    requires DistinctColumns(pairs)
    ensures DistinctColumns(Assign(pairs, col, v))
  {
    var r := Assign(pairs, col, v);
    if |pairs| > 0 && pairs[0].0 != col {
      AssignDistinct(pairs[1..], col, v);
      AssignLookup(pairs[1..], col, v);
      assert r[1..] == Assign(pairs[1..], col, v);
    } else if |pairs| > 0 {
      assert r[1..] == pairs[1..];
    }
  }

  /** One SET assignment, split at its first `=`; without `=` the unpacking raises. */
  function AssignmentOf(piece: string): Result<(string, Value)> {
    match IndexOf(piece, '=')
    case None => Err(UnpackError)
    case Some(i) => Ok((Strip(piece[..i]), ParseValue(Strip(piece[i + 1..]))))
  }

  /** The SET clause: assignments in order into a dict kept as pairs; the first piece
      without `=` aborts. */
  function Assignments(pieces: seq<string>, acc: seq<(string, Value)>): Result<seq<(string, Value)>>
    decreases |pieces|
  {
    if |pieces| == 0 then Ok(acc)
    else match AssignmentOf(pieces[0])
      case Err(e) => Err(e)
      case Ok(p) => Assignments(pieces[1..], Assign(acc, p.0, p.1))
  }

  /** `_parse_values`: every piece of the value list becomes a value. */
  function ValueList(s: string): (vals: seq<Value>)
    ensures |vals| == |SplitByCommas(s)|
  {
    ParsedValues(SplitByCommas(s))
  }

  /** Every piece through `_parse_value`, in order. */
  function ParsedValues(pieces: seq<string>): (vals: seq<Value>)
    ensures |vals| == |pieces|
    decreases |pieces|
  {
    if |pieces| == 0 then [] else ParsedValues(pieces[..|pieces| - 1]) + [ParseValue(pieces[|pieces| - 1])]
  }

  /** The value at each position is the one its piece gives. */
  lemma {:induction false} ParsedValuesAt(pieces: seq<string>, j: nat)
    requires j < |pieces|
    ensures ParsedValues(pieces)[j] == ParseValue(pieces[j])
    decreases |pieces|
  {
    if j < |pieces| - 1 {
      ParsedValuesAt(pieces[..|pieces| - 1], j);
    }
  }

  /** One more piece adds its value at the end. */
  lemma ParsedValuesSnoc(pieces: seq<string>, i: nat)
    requires i < |pieces|
    ensures ParsedValues(pieces[..i + 1]) == ParsedValues(pieces[..i]) + [ParseValue(pieces[i])]
  {
    assert pieces[..i + 1][..i] == pieces[..i];
  }

  /** The JOIN clause: the ON text must have exactly one `=`, and each side exactly one `.`;
      the table qualifiers are dropped. */
  function JoinOf(table: string, onText: string): (r: Result<JoinSpec>)
    ensures |SplitOn(onText, '=')| != 2 ==> r == Err(SyntaxError(InvalidJoin))
  {
    var sides := SplitOn(onText, '=');
    if |sides| != 2 then Err(SyntaxError(InvalidJoin))
    else
      var left := SplitOn(Strip(sides[0]), '.');
      var right := SplitOn(Strip(sides[1]), '.');
      if |left| != 2 || |right| != 2 then Err(UnpackError)
      else Ok(JoinSpec(Strip(table), left[1], right[1]))
  }

  /** A word free of whitespace never upper-cases to the two-word `PRIMARY KEY`. */
  lemma WordIsNotPrimaryKey(w: string)
    requires forall j | 0 <= j < |w| :: !IsSpace(w[j])
    ensures Upper(w) != "PRIMARY KEY"
  {
    if |w| == 11 {
      assert Upper(w)[7] == ToUpper(w[7]);
      assert !IsSpace(w[7]);
    }
  }

  /** No parsed column carries the constraint `PRIMARY KEY`: constraint words are split
      at whitespace, so the executor's test for that element never succeeds on a parsed
      statement, and no parsed column becomes a primary key. */
  lemma {:induction false} ParsedColumnsNeverPrimaryKey(pieces: seq<string>)
    ensures ColumnDefs(pieces).Ok? ==>
      forall d | d in ColumnDefs(pieces).value :: "PRIMARY KEY" !in d.constraints
    decreases |pieces|
  {
    if |pieces| > 0 {
      ParsedColumnsNeverPrimaryKey(pieces[1..]);
      var parts := SplitWhitespace(Strip(pieces[0]));
      if Strip(pieces[0]) != "" && |parts| >= 2 {
        var d := ColumnDefOf(Strip(pieces[0])).value;
        forall j | 0 <= j < |d.constraints|
          ensures d.constraints[j] != "PRIMARY KEY"
        {
          assert d.constraints[j] == Upper(parts[j + 2]);
          WordIsNotPrimaryKey(parts[j + 2]);
        }
      }
    }
  }

  /** Every parsed WHERE condition compares with `=`. */
  lemma {:induction false} ConditionsUseEquality(terms: seq<string>)
    ensures forall c | c in Conditions(terms) :: c.op == Eq
    decreases |terms|
  {
    if |terms| > 0 {
      ConditionsUseEquality(terms[..|terms| - 1]);
    }
  }

  /** A term written `a != b` is read at its `=`, as the equality `a! = b`. */
  lemma NotEqualReadAsEquality(l: string, r: string)
    requires '=' !in l
    ensures ConditionOf(l + "!=" + r) == Some(Condition(Strip(l + "!"), Eq, ParseValue(Strip(r))))
  {
    var t := l + "!=" + r;
    var k := |l| + 1;
    assert t[..k] == l + "!";
    assert t[k] == '=';
    assert t[k + 1..] == r;
    var i := IndexOf(t, '=').value;
    assert i == k;
  }

  // ---------------------------------------------------------------------------
  // Statement recognisers (the pattern constants of QueryParser)
  // ---------------------------------------------------------------------------

  datatype CreateMatch = CreateMatch(table: string, body: string)

  /** `CREATE TABLE (\w+)\s*\((.*)\)`, case-insensitive and DOTALL, anchored at the start
      only: the body runs to the last `)`. */
  function MatchCreateTable(q: string): Option<CreateMatch> {
    if !HasPrefixIgnoringCase(q, "CREATE TABLE ") then None
    else
      var r := q[13..];
      var w := WordRun(r);
      if w == 0 then None
      else
        var t := r[w..];
        var u := t[SpaceRun(t)..];
        if |u| == 0 || u[0] != '(' then None
        else match LastIndexOf(u[1..], ')')
          case None => None
          case Some(k) => Some(CreateMatch(r[..w], u[1..][..k]))
  }

  datatype InsertMatch = InsertMatch(table: string, columns: Option<string>, values: string)

  /** `\s*VALUES\s*\((.*)\)` (DOTALL) at the start of `t`: the value list up to the last `)`. */
  function ValuesTail(t: string): Option<string> {
    var a := t[SpaceRun(t)..];
    if !HasPrefixIgnoringCase(a, "VALUES") then None
    else
      var b := a[6..];
      var c := b[SpaceRun(b)..];
      if |c| == 0 || c[0] != '(' then None
      else match LastIndexOf(c[1..], ')')
        case None => None
        case Some(k) => Some(c[1..][..k])
  }

  /** The lazy column group `\((.*?)\)`: each `)` from `j` on in turn, the first after
      which the VALUES tail matches. */
  function LazyColumnGroup(u: string, j: nat): Option<(string, string)>
    requires 1 <= j <= |u|
    decreases |u| - j
  {
    match IndexOf(u[j..], ')')
    case None => None
    case Some(d) =>
      match ValuesTail(u[j + d + 1..])
      case Some(v) => Some((u[1..j + d], v))
      case None => LazyColumnGroup(u, j + d + 1)
  }

  /** What follows the table name when it is the whole word run. */
  function InsertAfterName(s: string): Option<(Option<string>, string)> {
    var u := s[SpaceRun(s)..];
    if |u| > 0 && u[0] == '(' then
      match LazyColumnGroup(u, 1)
      case Some(p) => Some((Some(p.0), p.1))
      case None => None
    else
      match ValuesTail(u)
      case Some(v) => Some((None, v))
      case None => None
  }

  /** `\w+` giving back characters: a shorter name must be followed at once by VALUES;
      the longest such name wins. */
  function InsertShorterName(r: string, len: nat): Option<InsertMatch>
    requires len <= |r|
    decreases len
  {
    if len == 0 then None
    else match ValuesTail(r[len..])
      case Some(v) => Some(InsertMatch(r[..len], None, v))
      case None => InsertShorterName(r, len - 1)
  }

  /** `INSERT INTO (\w+)\s*(?:\((.*?)\))?\s*VALUES\s*\((.*)\)`, case-insensitive, DOTALL. */
  function MatchInsert(q: string): Option<InsertMatch> {
    if !HasPrefixIgnoringCase(q, "INSERT INTO ") then None
    else
      var r := q[12..];
      var w := WordRun(r);
      if w == 0 then None
      else match InsertAfterName(r[w..])
        case Some(p) => Some(InsertMatch(r[..w], p.0, p.1))
        case None => InsertShorterName(r, w - 1)
  }

  /** `$`: the end of the text, or just before a final newline. */
  predicate AtEnd(z: string) {
    |z| == 0 || (|z| == 1 && z[0] == '\n')
  }

  /** `(.*)$` without DOTALL: the rest of the line, provided only a final newline follows. */
  function RestOfLine(e: string): (r: Option<string>)
    ensures r.Some? ==> '\n' !in r.value
  {
    match IndexOf(e, '\n')
    case None => Some(e)
    case Some(i) => if i == |e| - 1 then Some(e[..i]) else None
  }

  /** `\s+KEYWORD` at the start of `z`: the text after the keyword. The first `\s+` never
      gives characters back, since the keyword does not start with whitespace. */
  function AfterKeyword(z: string, kw: string): Option<string> {
    var a := SpaceRun(z);
    if a == 0 || !HasPrefixIgnoringCase(z[a..], kw) then None else Some(z[a + |kw|..])
  }

  /** `\s+KEYWORD\s+` at the start of `z`, when what follows cannot start with
      whitespace: the text after the longest run of whitespace. */
  function KeywordBetweenSpaces(z: string, kw: string): Option<string> {
    match AfterKeyword(z, kw)
    case None => None
    case Some(b) =>
      var c := SpaceRun(b);
      if c == 0 then None else Some(b[c..])
  }

  /** `\s+INNER JOIN\s+(\w+)\s+ON\s+(.*)$`: the join table and the ON text. */
  function JoinClause(z: string): Option<(string, string)> {
    match KeywordBetweenSpaces(z, "INNER JOIN")
    case None => None
    case Some(b) =>
      var w := WordRun(b);
      if w == 0 then None
      else match KeywordBetweenSpaces(b[w..], "ON")
        case None => None
        case Some(e) =>
          match RestOfLine(e)
          case None => None
          case Some(cond) => Some((b[..w], cond))
  }

  /** The optional join group followed by `$`. */
  function JoinOrEnd(z: string): Option<Option<(string, string)>> {
    match JoinClause(z)
    case Some(j) => Some(Some(j))
    case None => if AtEnd(z) then Some(None) else None
  }

  /** The lazy WHERE group `(.*?)`: the shortest text from `l` on after which the join
      group or the end follows. */
  function LazyWhere(y: string, l: nat): Option<(string, Option<(string, string)>)>
    requires l <= |y|
    decreases |y| - l
  {
    match JoinOrEnd(y[l..])
    case Some(j) => Some((y[..l], j))
    case None => if l < |y| && y[l] != '\n' then LazyWhere(y, l + 1) else None
  }

  /** `\s+(.*?)` after WHERE when the group cannot start after the longest run of
      whitespace: `\s+` gives back one character at a time, from `k` characters down to
      one, and at each the group is tried empty first. A longer group would end where an
      earlier attempt already failed, so only the empty group can succeed there. */
  function EmptyWhereAt(b: string, k: nat): Option<(string, Option<(string, string)>)>
    requires k <= |b|
    decreases k
  {
    if k == 0 then None
    else match JoinOrEnd(b[k..])
      case Some(j) => Some(("", j))
      case None => EmptyWhereAt(b, k - 1)
  }

  /** `\s+(.*?)` after WHERE, followed by the optional join group and `$`. */
  function WhereGroup(b: string): Option<(string, Option<(string, string)>)> {
    var c := SpaceRun(b);
    if c == 0 then None
    else match LazyWhere(b[c..], 0)
      case Some(p) => Some(p)
      case None => EmptyWhereAt(b, c - 1)
  }

  datatype SelectMatch = SelectMatch(columns: string, table: string, where: Option<string>, join: Option<(string, string)>)

  /** `(\w+)(?:\s+WHERE\s+(.*?))?(?:\s+INNER JOIN\s+(\w+)\s+ON\s+(.*))?$` after ` FROM `. */
  function SelectAfterFrom(u: string): Option<(string, Option<string>, Option<(string, string)>)> {
    var w := WordRun(u);
    if w == 0 then None
    else
      var v := u[w..];
      var withWhere := match AfterKeyword(v, "WHERE")
        case None => None
        case Some(b) => WhereGroup(b);
      match withWhere
      case Some(p) => Some((u[..w], Some(p.0), p.1))
      case None =>
        match JoinOrEnd(v)
        case Some(j) => Some((u[..w], None, j))
        case None => None
  }

  /** The lazy column group `(.*?)`: the first ` FROM ` at or after `i` after which the
      rest of the pattern matches. */
  function LazySelectColumns(r: string, i: nat): Option<SelectMatch>
    requires i <= |r|
    decreases |r| - i
  {
    var attempt := if HasPrefixIgnoringCase(r[i..], " FROM ") then SelectAfterFrom(r[i + 6..]) else None;
    match attempt
    case Some(p) => Some(SelectMatch(r[..i], p.0, p.1, p.2))
    case None => if i < |r| && r[i] != '\n' then LazySelectColumns(r, i + 1) else None
  }

  /** `SELECT (.*?) FROM (\w+)(?:\s+WHERE\s+(.*?))?(?:\s+INNER JOIN\s+(\w+)\s+ON\s+(.*))?$`,
      case-insensitive. */
  function MatchSelect(q: string): Option<SelectMatch> {
    if !HasPrefixIgnoringCase(q, "SELECT ") then None else LazySelectColumns(q[7..], 0)
  }

  /** `\s+WHERE\s+(.*)$`: the WHERE text. */
  function WhereToEnd(z: string): Option<string> {
    match KeywordBetweenSpaces(z, "WHERE")
    case None => None
    case Some(e) => RestOfLine(e)
  }

  datatype UpdateMatch = UpdateMatch(table: string, setClause: string, where: Option<string>)

  /** The lazy SET group `(.*?)`: the shortest text from `l` on after which the optional
      WHERE group and the end follow. */
  function LazySet(y: string, l: nat): Option<(string, Option<string>)>
    requires l <= |y|
    decreases |y| - l
  {
    match WhereToEnd(y[l..])
    case Some(w) => Some((y[..l], Some(w)))
    case None =>
      if AtEnd(y[l..]) then Some((y[..l], None))
      else if l < |y| && y[l] != '\n' then LazySet(y, l + 1)
      else None
  }

  /** `\s+(.*?)` after SET when the group cannot start after the longest run of
      whitespace: as `EmptyWhereAt`, the empty group at each shorter run. */
  function EmptySetAt(b: string, k: nat): Option<(string, Option<string>)>
    requires k <= |b|
    decreases k
  {
    if k == 0 then None
    else match WhereToEnd(b[k..])
      case Some(w) => Some(("", Some(w)))
      case None => if AtEnd(b[k..]) then Some(("", None)) else EmptySetAt(b, k - 1)
  }

  /** `\s+(.*?)` after SET, followed by the optional WHERE group and `$`. */
  function SetGroup(b: string): Option<(string, Option<string>)> {
    var c := SpaceRun(b);
    if c == 0 then None
    else match LazySet(b[c..], 0)
      case Some(p) => Some(p)
      case None => EmptySetAt(b, c - 1)
  }

  /** `UPDATE (\w+)\s+SET\s+(.*?)(?:\s+WHERE\s+(.*))?$`, case-insensitive. */
  function MatchUpdate(q: string): Option<UpdateMatch> {
    if !HasPrefixIgnoringCase(q, "UPDATE ") then None
    else
      var r := q[7..];
      var w := WordRun(r);
      if w == 0 then None
      else match AfterKeyword(r[w..], "SET")
        case None => None
        case Some(b) =>
          match SetGroup(b)
          case None => None
          case Some(p) => Some(UpdateMatch(r[..w], p.0, p.1))
  }

  datatype DeleteMatch = DeleteMatch(table: string, where: Option<string>)

  /** `DELETE FROM (\w+)(?:\s+WHERE\s+(.*))?$`, case-insensitive. */
  function MatchDelete(q: string): Option<DeleteMatch> {
    if !HasPrefixIgnoringCase(q, "DELETE FROM ") then None
    else
      var r := q[12..];
      var w := WordRun(r);
      if w == 0 then None
      else
        var v := r[w..];
        match WhereToEnd(v)
        case Some(e) => Some(DeleteMatch(r[..w], Some(e)))
        case None => if AtEnd(v) then Some(DeleteMatch(r[..w], None)) else None
  }

  // ---------------------------------------------------------------------------
  // Statements
  // ---------------------------------------------------------------------------

  /** A WHERE group that did not take part, or matched empty text, means no conditions. */
  function OptionalWhere(w: Option<string>): Option<seq<Condition>> {
    if w.Some? && w.value != "" then Some(WhereConditions(w.value)) else None
  }

  function ParsedCreateTable(q: string): Result<Statement> {
    match MatchCreateTable(q)
    case None => Err(SyntaxError(InvalidCreateTable))
    case Some(m) =>
      match ColumnDefs(SplitByCommas(m.body))
      case Err(e) => Err(e)
      case Ok(defs) => Ok(CreateTable(m.table, defs))
  }

  /** An empty column list counts as none; the list is split at every comma. */
  function ParsedInsert(q: string): Result<Statement> {
    match MatchInsert(q)
    case None => Err(SyntaxError(InvalidInsert))
    case Some(m) =>
      var cols := if m.columns.Some? && m.columns.value != "" then Some(StripAll(SplitOn(m.columns.value, ','))) else None;
      Ok(Insert(m.table, cols, ValueList(m.values)))
  }

  /** The selected columns: `*` alone selects everything, otherwise the stripped column
      list is split at every comma. */
  function Projection(columns: string): (r: seq<string>)
    ensures |r| >= 1
  {
    var cols := Strip(columns);
    if cols == "*" then ["*"] else StripAll(SplitOn(cols, ','))
  }

  /** A join needs a non-empty ON text. */
  function ParsedSelect(q: string): Result<Statement> {
    match MatchSelect(q)
    case None => Err(SyntaxError(InvalidSelect))
    case Some(m) =>
      var projection := Projection(m.columns);
      var where := OptionalWhere(m.where);
      if m.join.Some? && m.join.value.1 != "" then
        match JoinOf(m.join.value.0, m.join.value.1)
        case Err(e) => Err(e)
        case Ok(j) => Ok(Select(Strip(m.table), projection, where, Some(j)))
      else Ok(Select(Strip(m.table), projection, where, None))
  }

  function ParsedUpdate(q: string): Result<Statement> {
    match MatchUpdate(q)
    case None => Err(SyntaxError(InvalidUpdate))
    case Some(m) =>
      match Assignments(SplitByCommas(m.setClause), [])
      case Err(e) => Err(e)
      case Ok(a) => Ok(Update(m.table, a, OptionalWhere(m.where)))
  }

  function ParsedDelete(q: string): Result<Statement> {
    match MatchDelete(q)
    case None => Err(SyntaxError(InvalidDelete))
    case Some(m) => Ok(Delete(m.table, OptionalWhere(m.where)))
  }

  /** `query.strip().rstrip(';')`. */
  function Normalised(text: string): string {
    RStripChar(Strip(text), ';')
  }

  /** `parse`: strip whitespace, then every trailing `;`, then dispatch on the leading
      keyword, compared case-insensitively. */
  function Parsed(text: string): Result<Statement> {
    ParsedQuery(Normalised(text))
  }

  /** The dispatch on the leading keyword of a normalised query. */
  function ParsedQuery(q: string): Result<Statement> {
    if HasPrefixIgnoringCase(q, "CREATE TABLE") then ParsedCreateTable(q)
    else if HasPrefixIgnoringCase(q, "INSERT INTO") then ParsedInsert(q)
    else if HasPrefixIgnoringCase(q, "SELECT") then ParsedSelect(q)
    else if HasPrefixIgnoringCase(q, "UPDATE") then ParsedUpdate(q)
    else if HasPrefixIgnoringCase(q, "DELETE FROM") then ParsedDelete(q)
    else Err(SyntaxError(UnsupportedQuery))
  }

  /** Trailing semicolons are dropped before anything else is looked at. */
  lemma TrailingSemicolonIgnored(text: string)
    requires |text| == 0 || !IsSpace(text[|text| - 1])
    ensures Parsed(text + ";") == Parsed(text)
  {
    NormalisedSemicolon(text);
  }

  lemma NormalisedSemicolon(text: string)
    requires |text| == 0 || !IsSpace(text[|text| - 1])
    ensures Normalised(text + ";") == Normalised(text)
  {
    var l := LStrip(text);
    StripOfSemicolon(text);
    assert Strip(text) == l;
    assert (l + ";")[..|l|] == l;
  }

  lemma StripOfSemicolon(text: string)
    ensures Strip(text + ";") == LStrip(text) + ";"
  {
    LStripAppendNonSpace(text, ';');
    var l := LStrip(text);
    assert RStrip(l + ";") == l + ";";
  }
}
