/**
 * QueryParser (database/parser.py) as the loops it runs. Each method returns exactly
 * what the matching function of `Grammar` defines, so every property proved about the
 * grammar holds of what the parser hands to the executor. The parser keeps no state
 * beyond its pattern constants, which the recognisers of `Grammar` stand for.
 */
module Parser {
  import opened Wrappers
  import opened Types
  import opened Text
  import opened Errors
  import opened Grammar

  /** `_split_by_commas`: one pass that tracks the parenthesis depth, cutting at commas
      of depth zero and stripping each piece. */
  method SplitByCommasLoop(s: string) returns (result: seq<string>)
    ensures result == SplitByCommas(s)
  {
    result := [];
    var current := "";
    var depth := 0;
    assert current + s[0..] == s;
    for k := 0 to |s|
      invariant NoTopComma(current) && depth == Depth(current)
      invariant result + SplitByCommas(current + s[k..]) == SplitByCommas(s)
    {
      var c := s[k];
      SplitAdvance(s, k, result, current);
      if c == ',' && depth == 0 {
        result := result + [Strip(current)];
        current := "";
      } else {
        if c == '(' {
          depth := depth + 1;
        } else if c == ')' {
          depth := depth - 1;
        }
        current := current + [c];
      }
    }
    SplitWithoutTopComma(current);
    assert current + s[|s|..] == current;
    if current != "" {
      result := result + [Strip(current)];
    }
  }

  /** One character of the splitter keeps its loop invariant: a top-level comma closes
      the current piece, anything else extends it. */
  lemma SplitAdvance(s: string, k: nat, result: seq<string>, current: string)
    requires k < |s| && NoTopComma(current)
    requires result + SplitByCommas(current + s[k..]) == SplitByCommas(s)
    ensures s[k] == ',' && Depth(current) == 0 ==>
      result + [Strip(current)] + SplitByCommas("" + s[k + 1..]) == SplitByCommas(s)
    ensures !(s[k] == ',' && Depth(current) == 0) ==>
      && NoTopComma(current + [s[k]])
      && Depth(current + [s[k]]) == Depth(current) + ParenDelta(s[k])
      && result + SplitByCommas(current + [s[k]] + s[k + 1..]) == SplitByCommas(s)
  {
    if s[k] == ',' && Depth(current) == 0 {
      SplitAdvanceCut(s, k, result, current);
    } else {
      SplitAdvanceExtend(s, k, result, current);
    }
  }

  lemma SplitAdvanceCut(s: string, k: nat, result: seq<string>, current: string)
    requires k < |s| && NoTopComma(current) && s[k] == ',' && Depth(current) == 0
    requires result + SplitByCommas(current + s[k..]) == SplitByCommas(s)
    ensures result + [Strip(current)] + SplitByCommas("" + s[k + 1..]) == SplitByCommas(s)
  {
    SplitOffAt(current, s, k);
    SplitCut(result, current, s[k + 1..]);
  }

  lemma SplitAdvanceExtend(s: string, k: nat, result: seq<string>, current: string)
    requires k < |s| && NoTopComma(current) && !(s[k] == ',' && Depth(current) == 0)
    requires result + SplitByCommas(current + s[k..]) == SplitByCommas(s)
    ensures NoTopComma(current + [s[k]])
    ensures Depth(current + [s[k]]) == Depth(current) + ParenDelta(s[k])
    ensures result + SplitByCommas(current + [s[k]] + s[k + 1..]) == SplitByCommas(s)
  {
    SplitOffAt(current, s, k);
    DepthAppend(current, s[k]);
    NoTopCommaExtend(current, s[k]);
  }

  /** The text still to split, with its next character taken off. */
  lemma SplitOffAt(current: string, s: string, k: nat)
    requires k < |s|
    ensures current + s[k..] == current + [s[k]] + s[k + 1..]
  {
    assert s[k..] == [s[k]] + s[k + 1..];
  }

  lemma SplitCut(result: seq<string>, current: string, rest: string)
    requires NoTopComma(current) && Depth(current) == 0
    ensures result + SplitByCommas(current + [','] + rest) == result + [Strip(current)] + SplitByCommas("" + rest)
  {
    assert "" + rest == rest;
    SplitAtLeadingComma(current, rest);
    AppendAssoc(result, [Strip(current)], SplitByCommas(rest));
  }

  /** `_parse_where_clause`: split the text, then read its terms. */
  method ParseWhereClause(whereText: string) returns (conds: seq<Condition>)
    ensures conds == WhereConditions(whereText)
  {
    var terms := SplitByCommasLoop(whereText);
    conds := ParseConditions(terms);
  }

  /** The loop of `_parse_where_clause`: one condition per term that contains `=`. */
  method ParseConditions(terms: seq<string>) returns (conds: seq<Condition>)
    ensures conds == Conditions(terms)
  {
    conds := [];
    for i := 0 to |terms|
      invariant conds == Conditions(terms[..i])
    {
      ConditionsSnoc(terms, i);
      var c := ConditionOf(terms[i]);
      if c.Some? {
        conds := conds + [c.value];
      }
    }
    assert terms[..|terms|] == terms;
  }

  /** `... if where_clause else None`. */
  method ParseOptionalWhere(w: Option<string>) returns (r: Option<seq<Condition>>)
    ensures r == OptionalWhere(w)
  {
    if w.Some? && w.value != "" {
      var conds := ParseWhereClause(w.value);
      r := Some(conds);
    } else {
      r := None;
    }
  }

  /** `_parse_values`: split the text, then parse every piece. */
  method ParseValues(valuesText: string) returns (values: seq<Value>)
    ensures values == ValueList(valuesText)
  {
    var pieces := SplitByCommasLoop(valuesText);
    values := ParsePieces(pieces);
  }

  /** The loop of `_parse_values`: every piece, stripped, through `_parse_value`. */
  method ParsePieces(pieces: seq<string>) returns (values: seq<Value>)
    ensures values == ParsedValues(pieces)
  {
    values := [];
    for i := 0 to |pieces|
      invariant values == ParsedValues(pieces[..i])
    {
      var v := ParseStrippedPiece(pieces[i]);
      ParsedValuesSnoc(pieces, i);
      values := values + [v];
    }
    assert pieces[..|pieces|] == pieces;
  }

  /** `self._parse_value(v.strip())`: the same value as the piece itself gives. */
  method ParseStrippedPiece(piece: string) returns (v: Value)
    ensures v == ParseValue(piece)
  {
    ParseValueOfStripped(piece);
    v := ParseValue(Strip(piece));
  }

  /** `_parse_create_table`. */
  method ParseCreateTable(q: string) returns (r: Result<Statement>)
    ensures r == ParsedCreateTable(q)
  {
    var m := MatchCreateTable(q);
    if m.None? {
      return Err(SyntaxError(InvalidCreateTable));
    }
    var pieces := SplitByCommasLoop(m.value.body);
    var columns := ParseColumnDefs(pieces);
    match columns
    case Err(e) => return Err(e);
    case Ok(defs) => return Ok(CreateTable(m.value.table, defs));
  }

  /** The loop of `_parse_create_table` over the column definitions. */
  method ParseColumnDefs(pieces: seq<string>) returns (r: Result<seq<ColumnDef>>)
    ensures r == ColumnDefs(pieces)
  {
    var columns: seq<ColumnDef> := [];
    assert pieces[0..] == pieces;
    for i := 0 to |pieces|
      invariant ColumnDefs(pieces) == Prepend(columns, ColumnDefs(pieces[i..]))
    {
      var def := Strip(pieces[i]);
      if def != "" {
        var parts := SplitWhitespace(def);
        if |parts| < 2 {
          ColumnDefsFail(pieces, i, columns);
          return Err(MissingColumnType);
        }
        var constraints: seq<string> := [];
        if |parts| > 2 {
          constraints := UpperAll(parts[2..]);
        }
        var c := ColumnDef(parts[0], Upper(parts[1]), constraints);
        ColumnDefOfWords(def, c);
        ColumnDefsKeep(pieces, i, columns, c);
        columns := columns + [c];
      } else {
        ColumnDefsSkip(pieces, i, columns);
      }
    }
    assert pieces[|pieces|..] == [];
    assert columns + [] == columns;
    return Ok(columns);
  }

  /** A blank piece of the CREATE TABLE loop is skipped. */
  lemma ColumnDefsSkip(pieces: seq<string>, i: nat, columns: seq<ColumnDef>)
    requires i < |pieces| && Strip(pieces[i]) == ""
    requires ColumnDefs(pieces) == Prepend(columns, ColumnDefs(pieces[i..]))
    ensures ColumnDefs(pieces) == Prepend(columns, ColumnDefs(pieces[i + 1..]))
  {
    assert pieces[i..][1..] == pieces[i + 1..];
  }

  /** A piece of one word ends the CREATE TABLE loop with `MissingColumnType`, whatever
      the pieces after it hold. */
  lemma ColumnDefsFail(pieces: seq<string>, i: nat, columns: seq<ColumnDef>)
    requires i < |pieces| && Strip(pieces[i]) != "" && |SplitWhitespace(Strip(pieces[i]))| < 2
    requires ColumnDefs(pieces) == Prepend(columns, ColumnDefs(pieces[i..]))
    ensures ColumnDefs(pieces) == Err(MissingColumnType)
  {
    assert ColumnDefs(pieces[i..]) == Err(MissingColumnType);
  }

  /** A piece that reads as the definition `c` appends it and the loop goes on. */
  lemma ColumnDefsKeep(pieces: seq<string>, i: nat, columns: seq<ColumnDef>, c: ColumnDef)
    requires i < |pieces| && Strip(pieces[i]) != "" && ColumnDefOf(Strip(pieces[i])) == Ok(c)
    requires ColumnDefs(pieces) == Prepend(columns, ColumnDefs(pieces[i..]))
    ensures ColumnDefs(pieces) == Prepend(columns + [c], ColumnDefs(pieces[i + 1..]))
  {
    assert pieces[i..][1..] == pieces[i + 1..];
    ColumnDefsCons(pieces[i..], c);
    PrependThen(columns, c, ColumnDefs(pieces[i + 1..]));
  }

  lemma ColumnDefsCons(p: seq<string>, c: ColumnDef)
    requires |p| > 0 && Strip(p[0]) != "" && ColumnDefOf(Strip(p[0])) == Ok(c)
    ensures ColumnDefs(p) == Prepend([c], ColumnDefs(p[1..]))
  {
  }

  /** A definition of two words or more: name, upper-cased type, upper-cased constraints
      (none when there are only two words). */
  lemma ColumnDefOfWords(d: string, c: ColumnDef)
    requires |SplitWhitespace(d)| >= 2
    requires var parts := SplitWhitespace(d);
      c == ColumnDef(parts[0], Upper(parts[1]), if |parts| > 2 then UpperAll(parts[2..]) else [])
    ensures ColumnDefOf(d) == Ok(c)
  {
    var parts := SplitWhitespace(d);
    if |parts| == 2 {
      assert UpperAll(parts[2..]) == [];
    }
  }


  /** `_parse_insert`. */
  method ParseInsert(q: string) returns (r: Result<Statement>)
    ensures r == ParsedInsert(q)
  {
    var m := MatchInsert(q);
    if m.None? {
      return Err(SyntaxError(InvalidInsert));
    }
    var columns: Option<seq<string>> := None;
    if m.value.columns.Some? && m.value.columns.value != "" {
      columns := Some(StripAll(SplitOn(m.value.columns.value, ',')));
    }
    var values := ParseValues(m.value.values);
    return Ok(Insert(m.value.table, columns, values));
  }

  /** `_parse_select`. */
  method ParseSelect(q: string) returns (r: Result<Statement>)
    ensures r == ParsedSelect(q)
  {
    var m := MatchSelect(q);
    if m.None? {
      return Err(SyntaxError(InvalidSelect));
    }
    var table := Strip(m.value.table);
    var projection := Projection(m.value.columns);
    var where := ParseOptionalWhere(m.value.where);
    var join: Option<JoinSpec> := None;
    if m.value.join.Some? && m.value.join.value.1 != "" {
      var spec := JoinOf(m.value.join.value.0, m.value.join.value.1);
      if spec.Err? {
        return Err(spec.error);
      }
      join := Some(spec.value);
    }
    return Ok(Select(table, projection, where, join));
  }

  /** `_parse_update`. */
  method ParseUpdate(q: string) returns (r: Result<Statement>)
    ensures r == ParsedUpdate(q)
  {
    var m := MatchUpdate(q);
    if m.None? {
      return Err(SyntaxError(InvalidUpdate));
    }
    var pieces := SplitByCommasLoop(m.value.setClause);
    var assignments := ParseAssignments(pieces);
    if assignments.Err? {
      return Err(assignments.error);
    }
    var where := ParseOptionalWhere(m.value.where);
    return Ok(Update(m.value.table, assignments.value, where));
  }

  /** The loop of `_parse_update`: each SET piece is assigned into the dict in order. */
  method ParseAssignments(pieces: seq<string>) returns (r: Result<seq<(string, Value)>>)
    ensures r == Assignments(pieces, [])
  {
    var assignments: seq<(string, Value)> := [];
    assert pieces[0..] == pieces;
    for i := 0 to |pieces|
      invariant Assignments(pieces, []) == Assignments(pieces[i..], assignments)
    {
      assert pieces[i..][1..] == pieces[i + 1..];
      match AssignmentOf(pieces[i])
      case Err(e) =>
        return Err(e);
      case Ok(p) =>
        assignments := Assign(assignments, p.0, p.1);
    }
    assert pieces[|pieces|..] == [];
    return Ok(assignments);
  }

  /** `_parse_delete`. */
  method ParseDelete(q: string) returns (r: Result<Statement>)
    ensures r == ParsedDelete(q)
  {
    var m := MatchDelete(q);
    if m.None? {
      return Err(SyntaxError(InvalidDelete));
    }
    var where := ParseOptionalWhere(m.value.where);
    return Ok(Delete(m.value.table, where));
  }

  /** `parse`. */
  method Parse(text: string) returns (r: Result<Statement>)
    ensures r == Parsed(text)
  {
    var q := Normalised(text);
    if HasPrefixIgnoringCase(q, "CREATE TABLE") {
      r := ParseCreateTable(q);
    } else if HasPrefixIgnoringCase(q, "INSERT INTO") {
      r := ParseInsert(q);
    } else if HasPrefixIgnoringCase(q, "SELECT") {
      r := ParseSelect(q);
    } else if HasPrefixIgnoringCase(q, "UPDATE") {
      r := ParseUpdate(q);
    } else if HasPrefixIgnoringCase(q, "DELETE FROM") {
      r := ParseDelete(q);
    } else {
      r := Err(SyntaxError(UnsupportedQuery));
    }
  }
}
