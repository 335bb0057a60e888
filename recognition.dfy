/**
 * What the statement recognisers of `Grammar` accept, for every table name and clause
 * text: a statement written in the shape the query language documents is recognised,
 * with the table name, the column and value lists and the clause texts cut where the
 * pattern constants of database/parser.py cut them, and the parser returns the
 * statement record built from those pieces.
 *
 * Keywords are written here in upper case with single spaces. The clause texts are
 * free except where a pattern would end them earlier: a text that must run to the end
 * of the line has no newline, starts with no whitespace, and holds no later keyword.
 */
module Recognition {
  import opened Wrappers
  import opened Types
  import opened Text
  import opened Errors
  import opened Grammar

  // ---------------------------------------------------------------------------
  // Pieces of a statement
  // ---------------------------------------------------------------------------

  /** A table or join name as `\w+` matches it. */
  predicate IsWord(t: string) {
    |t| > 0 && forall i | 0 <= i < |t| :: IsWordChar(t[i])
  }

  /** A clause text that `(.*)$` takes whole: non-empty, no newline, and not starting with
      whitespace, which `\s+` in front of it would otherwise swallow. */
  predicate IsLineText(w: string) {
    |w| > 0 && !IsSpace(w[0]) && '\n' !in w
  }

  /** `kw` occurs in `s`, compared case-insensitively. */
  predicate ContainsKeyword(s: string, kw: string) {
    exists i | 0 <= i < |s| :: HasPrefixIgnoringCase(s[i..], kw)
  }

  /** A keyword written in upper case is its own upper-case form. */
  predicate UpperLiteral(kw: string) {
    forall i | 0 <= i < |kw| :: ToUpper(kw[i]) == kw[i]
  }

  /** The keywords of the patterns are written in upper case. */
  lemma UpperKeywords()
    ensures UpperLiteral("CREATE TABLE ") && UpperLiteral("INSERT INTO ") && UpperLiteral("SELECT ")
    ensures UpperLiteral("UPDATE ") && UpperLiteral("DELETE FROM ") && UpperLiteral(" FROM ")
    ensures UpperLiteral("VALUES") && UpperLiteral("WHERE") && UpperLiteral("SET")
    ensures UpperLiteral("INNER JOIN") && UpperLiteral("ON")
  {
    UpperStatementKeywords();
    UpperClauseKeywords();
  }

  lemma UpperStatementKeywords()
    ensures UpperLiteral("CREATE TABLE ") && UpperLiteral("INSERT INTO ") && UpperLiteral("SELECT ")
    ensures UpperLiteral("UPDATE ") && UpperLiteral("DELETE FROM ")
  {
  }

  lemma UpperClauseKeywords()
    ensures UpperLiteral(" FROM ") && UpperLiteral("VALUES") && UpperLiteral("WHERE") && UpperLiteral("SET")
    ensures UpperLiteral("INNER JOIN") && UpperLiteral("ON")
  {
  }

  lemma KeywordPrefix(kw: string, rest: string)
    requires UpperLiteral(kw)
    ensures HasPrefixIgnoringCase(kw + rest, kw)
    ensures (kw + rest)[|kw|..] == rest
  {
  }

  lemma {:induction false} WordRunOfWord(t: string, rest: string)
    requires forall i | 0 <= i < |t| :: IsWordChar(t[i])
    requires |rest| == 0 || !IsWordChar(rest[0])
    ensures WordRun(t + rest) == |t|
    decreases |t|
  {
    if |t| > 0 {
      assert (t + rest)[1..] == t[1..] + rest;
      WordRunOfWord(t[1..], rest);
    }
  }

  /** One blank before text that does not start with whitespace. */
  lemma SpaceRunOfBlank(x: string)
    requires |x| == 0 || !IsSpace(x[0])
    ensures SpaceRun(" " + x) == 1
  {
    assert (" " + x)[1..] == x;
  }

  lemma RestOfLineWhole(w: string)
    requires '\n' !in w
    ensures RestOfLine(w) == Some(w)
  {
  }

  /** A word starts with neither whitespace nor a character `\w` could continue after. */
  lemma WordStart(t: string)
    requires IsWord(t)
    ensures !IsSpace(t[0])
  {
  }

  /** ` KW ` followed by line text: the text after the keyword. */
  lemma KeywordThenText(kw: string, w: string)
    requires UpperLiteral(kw) && |kw| > 0 && !IsSpace(kw[0])
    requires IsLineText(w)
    ensures KeywordBetweenSpaces(" " + kw + " " + w, kw) == Some(w)
  {
    var z := " " + kw + " " + w;
    SpaceRunOfBlank(kw + " " + w);
    assert z[1..] == kw + (" " + w);
    UpperKeywords();
    KeywordPrefix(kw, " " + w);
    assert z[1 + |kw|..] == " " + w;
    SpaceRunOfBlank(w);
    assert (" " + w)[1..] == w;
  }

  /** `\s+WHERE\s+(.*)$` on ` WHERE w`. */
  lemma WhereToEndOf(w: string)
    requires IsLineText(w)
    ensures WhereToEnd(" WHERE " + w) == Some(w)
  {
    assert " WHERE " + w == " " + "WHERE" + " " + w;
    UpperKeywords();
    KeywordThenText("WHERE", w);
    RestOfLineWhole(w);
  }

  /** Text that is empty does not hold a WHERE group. */
  lemma NoWhereInEmpty()
    ensures WhereToEnd("") == None
    ensures JoinOrEnd("") == Some(None)
  {
  }

  /** A normalised query is parsed as it stands: text with no whitespace at either end and
      no final `;` goes to the dispatch unchanged. */
  lemma ParsedNormalised(q: string)
    requires |q| > 0 && !IsSpace(q[0]) && !IsSpace(q[|q| - 1]) && q[|q| - 1] != ';'
    ensures Parsed(q) == ParsedQuery(q)
  {
    StripUnpadded(q);
  }

  /** The dispatch of `parse` sends a query to the decoder its leading keyword names. */
  lemma DispatchCreateTable(q: string)
    requires HasPrefixIgnoringCase(q, "CREATE TABLE ")
    ensures ParsedQuery(q) == ParsedCreateTable(q)
  {
    assert HasPrefixIgnoringCase(q, "CREATE TABLE");
  }

  lemma DispatchInsert(q: string)
    requires HasPrefixIgnoringCase(q, "INSERT INTO ")
    ensures ParsedQuery(q) == ParsedInsert(q)
  {
    assert ToUpper(q[0]) == 'I';
    assert !HasPrefixIgnoringCase(q, "CREATE TABLE");
    assert HasPrefixIgnoringCase(q, "INSERT INTO");
  }

  lemma DispatchSelect(q: string)
    requires HasPrefixIgnoringCase(q, "SELECT ")
    ensures ParsedQuery(q) == ParsedSelect(q)
  {
    assert ToUpper(q[0]) == 'S';
    assert !HasPrefixIgnoringCase(q, "CREATE TABLE");
    assert !HasPrefixIgnoringCase(q, "INSERT INTO");
    assert HasPrefixIgnoringCase(q, "SELECT");
  }

  lemma DispatchUpdate(q: string)
    requires HasPrefixIgnoringCase(q, "UPDATE ")
    ensures ParsedQuery(q) == ParsedUpdate(q)
  {
    assert ToUpper(q[0]) == 'U';
    assert !HasPrefixIgnoringCase(q, "CREATE TABLE");
    assert !HasPrefixIgnoringCase(q, "INSERT INTO");
    assert !HasPrefixIgnoringCase(q, "SELECT");
    assert HasPrefixIgnoringCase(q, "UPDATE");
  }

  lemma DispatchDelete(q: string)
    requires HasPrefixIgnoringCase(q, "DELETE FROM ")
    ensures ParsedQuery(q) == ParsedDelete(q)
  {
    assert ToUpper(q[0]) == 'D';
    assert !HasPrefixIgnoringCase(q, "CREATE TABLE");
    assert !HasPrefixIgnoringCase(q, "INSERT INTO");
    assert !HasPrefixIgnoringCase(q, "SELECT");
    assert !HasPrefixIgnoringCase(q, "UPDATE");
    assert HasPrefixIgnoringCase(q, "DELETE FROM");
  }

  // ---------------------------------------------------------------------------
  // DELETE FROM
  // ---------------------------------------------------------------------------

  /** `DELETE FROM t` deletes from `t` with no conditions. */
  lemma RecogniseDelete(t: string)
    requires IsWord(t)
    ensures MatchDelete("DELETE FROM " + t) == Some(DeleteMatch(t, None))
    ensures ParsedQuery("DELETE FROM " + t) == Ok(Delete(t, None))
  {
    var q := "DELETE FROM " + t;
    UpperKeywords();
    KeywordPrefix("DELETE FROM ", t);
    assert t + "" == t;
    WordRunOfWord(t, "");
    assert t[|t|..] == "";
    NoWhereInEmpty();
    DispatchDelete(q);
  }

  /** `DELETE FROM t WHERE w` deletes from `t` the rows the conditions of `w` select. */
  lemma RecogniseDeleteWhere(t: string, w: string)
    requires IsWord(t) && IsLineText(w)
    ensures MatchDelete("DELETE FROM " + t + " WHERE " + w) == Some(DeleteMatch(t, Some(w)))
    ensures ParsedQuery("DELETE FROM " + t + " WHERE " + w) == Ok(Delete(t, Some(WhereConditions(w))))
  {
    var v := " WHERE " + w;
    var r := t + v;
    var q := "DELETE FROM " + r;
    assert q == "DELETE FROM " + t + " WHERE " + w;
    UpperKeywords();
    KeywordPrefix("DELETE FROM ", r);
    WordThen(t, v);
    WhereToEndOf(w);
    DispatchDelete(q);
  }

  // ---------------------------------------------------------------------------
  // CREATE TABLE
  // ---------------------------------------------------------------------------

  /** `CREATE TABLE t (body)`: the body is everything up to the last `)`, whatever it
      holds, and the column definitions are read from it. */
  lemma RecogniseCreateTable(t: string, body: string)
    requires IsWord(t)
    ensures MatchCreateTable("CREATE TABLE " + t + " (" + body + ")") == Some(CreateMatch(t, body))
    ensures ParsedQuery("CREATE TABLE " + t + " (" + body + ")") ==
      match ColumnDefs(SplitByCommas(body))
      case Ok(defs) => Ok(CreateTable(t, defs))
      case Err(e) => Err(e)
  {
    var q := "CREATE TABLE " + t + " (" + body + ")";
    MatchCreateTableOf(t, body);
    DispatchCreateTable(q);
  }

  lemma MatchCreateTableOf(t: string, body: string)
    requires IsWord(t)
    ensures HasPrefixIgnoringCase("CREATE TABLE " + t + " (" + body + ")", "CREATE TABLE ")
    ensures MatchCreateTable("CREATE TABLE " + t + " (" + body + ")") == Some(CreateMatch(t, body))
  {
    var rest := " (" + body + ")";
    var r := t + rest;
    var q := "CREATE TABLE " + r;
    Assoc5("CREATE TABLE ", t, " (", body, ")");
    UpperKeywords();
    KeywordPrefix("CREATE TABLE ", r);
    WordThen(t, rest);
    ParenthesisedTail(body);
  }

  /** A word followed by text that cannot continue it is the whole word run. */
  lemma WordThen(t: string, rest: string)
    requires IsWord(t) && (|rest| == 0 || !IsWordChar(rest[0]))
    ensures WordRun(t + rest) == |t| && (t + rest)[..|t|] == t && (t + rest)[|t|..] == rest
  {
    WordRunOfWord(t, rest);
  }

  /** ` (body)`: one blank, then the body up to the last `)`. */
  lemma ParenthesisedTail(body: string)
    ensures SpaceRun(" (" + body + ")") == 1
    ensures (" (" + body + ")")[1..] == "(" + body + ")"
    ensures LastIndexOf(("(" + body + ")")[1..], ')') == Some(|body|)
    ensures ("(" + body + ")")[1..][..|body|] == body
  {
    var u := "(" + body + ")";
    DropInLeft(" (" + body, ")", 1);
    DropInLeft(" (", body, 1);
    assert " ("[1..] == "(";
    DropInLeft("(" + body, ")", 1);
    DropInLeft("(", body, 1);
    assert "("[1..] == "";
    assert "" + body == body;
    assert (" (" + body + ")")[0] == ' ' && (" (" + body + ")")[1] == '(';
    LastClose(body);
  }

  /** Dropping a prefix of the left operand of a concatenation. */
  lemma DropInLeft(a: string, b: string, k: nat)
    requires k <= |a|
    ensures (a + b)[k..] == a[k..] + b
  {
  }

  lemma LastClose(body: string)
    ensures LastIndexOf(body + ")", ')') == Some(|body|)
    ensures (body + ")")[..|body|] == body
  {
    assert (body + ")")[|body|] == ')';
  }

  // ---------------------------------------------------------------------------
  // INSERT INTO
  // ---------------------------------------------------------------------------

  /** `\s*VALUES\s*\((.*)\)` on ` VALUES (vals)`: the values are everything up to the
      last `)`. */
  lemma ValuesTailOf(vals: string)
    ensures ValuesTail(" VALUES (" + vals + ")") == Some(vals)
    ensures ValuesTail("VALUES (" + vals + ")") == Some(vals)
  {
    var tail := " (" + vals + ")";
    var a := "VALUES" + tail;
    assert " VALUES (" + vals + ")" == " " + a;
    assert "VALUES (" + vals + ")" == a;
    SpaceRunOfBlank(a);
    assert (" " + a)[1..] == a;
    assert SpaceRun(a) == 0;
    UpperKeywords();
    KeywordPrefix("VALUES", tail);
    ParenthesisedTail(vals);
  }

  /** `INSERT INTO t VALUES (vals)`: no column list, and the values read from `vals`. */
  lemma RecogniseInsert(t: string, vals: string)
    requires IsWord(t)
    ensures MatchInsert("INSERT INTO " + t + " VALUES (" + vals + ")") == Some(InsertMatch(t, None, vals))
    ensures ParsedQuery("INSERT INTO " + t + " VALUES (" + vals + ")") == Ok(Insert(t, None, ValueList(vals)))
  {
    var rest := " VALUES (" + vals + ")";
    var r := t + rest;
    var q := "INSERT INTO " + r;
    Assoc5("INSERT INTO ", t, " VALUES (", vals, ")");
    UpperKeywords();
    KeywordPrefix("INSERT INTO ", r);
    WordThen(t, rest);
    InsertWithoutColumns(vals);
    DispatchInsert(q);
  }

  lemma InsertWithoutColumns(vals: string)
    ensures InsertAfterName(" VALUES (" + vals + ")") == Some((None, vals))
  {
    var u := "VALUES (" + vals + ")";
    SpaceRunOfBlank(u);
    assert (" " + u)[1..] == u;
    assert " VALUES (" + vals + ")" == " " + u;
    ValuesTailOf(vals);
  }

  /** `INSERT INTO t (cols) VALUES (vals)`: the column list ends at the first `)`, and
      is split at every comma and stripped. */
  lemma RecogniseInsertColumns(t: string, cols: string, vals: string)
    requires IsWord(t) && cols != "" && ')' !in cols
    ensures MatchInsert("INSERT INTO " + t + " (" + cols + ") VALUES (" + vals + ")") == Some(InsertMatch(t, Some(cols), vals))
    ensures ParsedQuery("INSERT INTO " + t + " (" + cols + ") VALUES (" + vals + ")") ==
      Ok(Insert(t, Some(StripAll(SplitOn(cols, ','))), ValueList(vals)))
  {
    var rest := " (" + (cols + (") VALUES (" + (vals + ")")));
    var r := t + rest;
    var q := "INSERT INTO " + r;
    Assoc6("INSERT INTO ", t, " (", cols, ") VALUES (", vals + ")");
    assert "INSERT INTO " + t + " (" + cols + ") VALUES (" + vals + ")" == q by {
      assert "INSERT INTO " + t + " (" + cols + ") VALUES (" + vals + ")" ==
        "INSERT INTO " + t + " (" + cols + ") VALUES (" + (vals + ")");
    }
    UpperKeywords();
    KeywordPrefix("INSERT INTO ", r);
    WordThen(t, rest);
    InsertWithColumns(cols, vals);
    DispatchInsert(q);
  }

  lemma InsertWithColumns(cols: string, vals: string)
    requires ')' !in cols
    ensures InsertAfterName(" (" + (cols + (") VALUES (" + (vals + ")")))) == Some((Some(cols), vals))
  {
    var tail := " VALUES (" + vals + ")";
    var u := "(" + cols + (")" + tail);
    assert " (" + (cols + (") VALUES (" + (vals + ")"))) == " " + u;
    SpaceRunOfBlank(u);
    assert (" " + u)[1..] == u;
    ValuesTailOf(vals);
    ColumnGroupOf(cols, tail, vals);
  }

  /** `\((.*?)\)` followed by the VALUES tail: the group ends at the first `)`. */
  lemma ColumnGroupOf(cols: string, tail: string, vals: string)
    requires ')' !in cols && ValuesTail(tail) == Some(vals)
    ensures LazyColumnGroup("(" + cols + (")" + tail), 1) == Some((cols, vals))
  {
    var u := "(" + cols + (")" + tail);
    FirstCloseOf(cols, tail);
    ColumnGroupPieces(cols, tail);
    ColumnGroupAt(u, |cols|, vals);
  }

  /** The lazy group succeeds at the first `)` when the VALUES tail follows it. */
  lemma ColumnGroupAt(u: string, d: nat, vals: string)
    requires 1 <= |u| && IndexOf(u[1..], ')') == Some(d)
    requires ValuesTail(u[1 + d + 1..]) == Some(vals)
    ensures LazyColumnGroup(u, 1) == Some((u[1..1 + d], vals))
  {
  }

  lemma FirstCloseOf(cols: string, tail: string)
    requires ')' !in cols
    ensures IndexOf(("(" + cols + (")" + tail))[1..], ')') == Some(|cols|)
  {
    assert ("(" + cols + (")" + tail))[1..] == cols + (")" + tail);
    IndexAfterFree(cols, ")" + tail, ')');
  }

  lemma ColumnGroupPieces(cols: string, tail: string)
    ensures ("(" + cols + (")" + tail))[1 + |cols| + 1..] == tail
    ensures ("(" + cols + (")" + tail))[1..1 + |cols|] == cols
  {
  }

  /** The first `c` of `a + b` lies in `b` when `a` has none. */
  lemma {:induction false} IndexAfterFree(a: string, b: string, c: char)
    requires c !in a && |b| > 0 && b[0] == c
    ensures IndexOf(a + b, c) == Some(|a|)
  {
    var s := a + b;
    assert s[|a|] == c;
    assert s[..|a|] == a;
  }

  // ---------------------------------------------------------------------------
  // Keywords inside clause texts
  // ---------------------------------------------------------------------------

  /** A keyword that does not occur in `w` starts at no position of it. */
  lemma KeywordNotAt(w: string, p: nat, kw: string)
    requires |kw| > 0 && p <= |w| && !ContainsKeyword(w, kw)
    ensures !HasPrefixIgnoringCase(w[p..], kw)
  {
  }

  /** Nor does it start inside `a` and run on into a blank that follows `a`, when the
      keyword has no blank. */
  lemma KeywordNotAcross(a: string, rest: string, p: nat, kw: string)
    requires p < |a| && |kw| > 0 && !ContainsKeyword(a, kw)
    requires |rest| > 0 && rest[0] == ' '
    requires forall i | 0 <= i < |kw| :: kw[i] != ' '
    ensures !HasPrefixIgnoringCase((a + rest)[p..], kw)
  {
    KeywordNotAt(a, p, kw);
    if |a| - p >= |kw| {
      assert forall i | 0 <= i < |kw| :: (a + rest)[p..][i] == a[p..][i];
    } else {
      var j := |a| - p;
      assert (a + rest)[p..][j] == ' ';
    }
  }

  /** The whitespace run at the start of text whose last character is not whitespace
      stops inside it. */
  lemma {:induction false} SpaceRunWithin(x: string, y: string)
    requires |x| > 0 && !IsSpace(x[|x| - 1])
    ensures SpaceRun(x + y) < |x|
    decreases |x|
  {
    if IsSpace(x[0]) {
      assert (x + y)[1..] == x[1..] + y;
      SpaceRunWithin(x[1..], y);
    }
  }

  // ---------------------------------------------------------------------------
  // SELECT
  // ---------------------------------------------------------------------------

  /** The lazy column group passes over positions where neither a newline nor ` FROM `
      starts. */
  lemma {:induction false} SkipColumns(r: string, i: nat, n: nat)
    requires i <= n <= |r|
    requires forall k | i <= k < n :: r[k] != '\n' && !HasPrefixIgnoringCase(r[k..], " FROM ")
    ensures LazySelectColumns(r, i) == LazySelectColumns(r, n)
    decreases n - i
  {
    if i < n {
      SkipColumns(r, i + 1, n);
    }
  }

  /** The lazy column group stops at a ` FROM ` after which the rest matches. */
  lemma ColumnsEndAt(r: string, n: nat, p: (string, Option<string>, Option<(string, string)>))
    requires n + 6 <= |r| && HasPrefixIgnoringCase(r[n..], " FROM ")
    requires SelectAfterFrom(r[n + 6..]) == Some(p)
    ensures LazySelectColumns(r, n) == Some(SelectMatch(r[..n], p.0, p.1, p.2))
  {
  }

  /** `SELECT c FROM rest` for a column list without a newline in which no ` FROM `
      starts, not even one ending in the blank that follows it. */
  lemma MatchSelectOf(c: string, rest: string, p: (string, Option<string>, Option<(string, string)>))
    requires '\n' !in c && !ContainsKeyword(c + " ", " FROM ")
    requires SelectAfterFrom(rest) == Some(p)
    ensures HasPrefixIgnoringCase("SELECT " + (c + (" FROM " + rest)), "SELECT ")
    ensures MatchSelect("SELECT " + (c + (" FROM " + rest))) == Some(SelectMatch(c, p.0, p.1, p.2))
  {
    var r := c + (" FROM " + rest);
    UpperKeywords();
    KeywordPrefix("SELECT ", r);
    SelectColumnsOf(c, rest, p);
    MatchSelectAt("SELECT " + r, r);
  }

  lemma MatchSelectAt(q: string, r: string)
    requires HasPrefixIgnoringCase(q, "SELECT ") && q[7..] == r
    ensures MatchSelect(q) == LazySelectColumns(r, 0)
  {
  }

  /** The lazy column group on `c FROM rest` is `c`. */
  lemma SelectColumnsOf(c: string, rest: string, p: (string, Option<string>, Option<(string, string)>))
    requires '\n' !in c && !ContainsKeyword(c + " ", " FROM ")
    requires SelectAfterFrom(rest) == Some(p)
    ensures LazySelectColumns(c + (" FROM " + rest), 0) == Some(SelectMatch(c, p.0, p.1, p.2))
  {
    var r := c + (" FROM " + rest);
    ColumnsSkipOf(c, " FROM " + rest);
    FromAt(c, rest);
    ColumnsEndAt(r, |c|, p);
  }

  lemma ColumnsSkipOf(c: string, tail: string)
    requires '\n' !in c && !ContainsKeyword(c + " ", " FROM ")
    requires |tail| > 0 && tail[0] == ' '
    ensures LazySelectColumns(c + tail, 0) == LazySelectColumns(c + tail, |c|)
  {
    var r := c + tail;
    forall k | 0 <= k < |c|
      ensures r[k] != '\n' && !HasPrefixIgnoringCase(r[k..], " FROM ")
    {
      assert r[k] == c[k];
      FromNotInside(c, tail, k);
    }
    SkipColumns(r, 0, |c|);
  }

  /** No ` FROM ` starts inside `c` when the text goes on with a blank: either it would
      lie within `c + " "`, or a letter of `FROM` would fall on that blank. */
  lemma FromNotInside(c: string, tail: string, k: nat)
    requires k < |c| && !ContainsKeyword(c + " ", " FROM ")
    requires |tail| > 0 && tail[0] == ' '
    ensures !HasPrefixIgnoringCase((c + tail)[k..], " FROM ")
  {
    var a := c + " ";
    var r := c + tail;
    if |c| - k >= 5 {
      assert !HasPrefixIgnoringCase(a[k..], " FROM ");
      forall j | 0 <= j < 6
        ensures r[k..][j] == a[k..][j]
      {
        if k + j == |c| {
          assert r[k + j] == tail[0];
        }
      }
    } else {
      var j := |c| - k;
      assert r[k..][j] == tail[0];
      assert " FROM "[j] != ' ';
    }
  }

  lemma FromAt(c: string, rest: string)
    ensures var r := c + (" FROM " + rest);
      && |c| + 6 <= |r| && HasPrefixIgnoringCase(r[|c|..], " FROM ") && r[|c| + 6..] == rest && r[..|c|] == c
  {
    var r := c + (" FROM " + rest);
    UpperKeywords();
    KeywordPrefix(" FROM ", rest);
    assert r[|c|..] == " FROM " + rest;
  }

  /** What follows the table name: nothing. */
  lemma AfterFromPlain(t: string)
    requires IsWord(t)
    ensures SelectAfterFrom(t) == Some((t, None, None))
  {
    WordThen(t, "");
    assert t + "" == t;
    NoWhereInEmpty();
  }

  /** The lazy WHERE group of a text without a newline or `INNER JOIN` runs to the end. */
  lemma {:induction false} WhereRunsToEnd(w: string, l: nat)
    requires l <= |w| && '\n' !in w && !ContainsKeyword(w, "INNER JOIN")
    ensures LazyWhere(w, l) == Some((w, None))
    decreases |w| - l
  {
    if l < |w| {
      WherePassesInside(w, l);
      WhereRunsToEnd(w, l + 1);
    } else {
      WhereAtEnd(w);
    }
  }

  lemma WherePassesInside(w: string, l: nat)
    requires l < |w| && '\n' !in w && !ContainsKeyword(w, "INNER JOIN")
    ensures LazyWhere(w, l) == LazyWhere(w, l + 1)
  {
    NoJoinAt(w, l);
    assert w[l] in w;
  }

  lemma WhereAtEnd(w: string)
    ensures LazyWhere(w, |w|) == Some((w, None))
  {
    assert w[..|w|] == w;
    assert w[|w|..] == "";
    NoWhereInEmpty();
  }

  /** Neither a join nor the end of the text starts inside such a text. */
  lemma NoJoinAt(w: string, l: nat)
    requires l < |w| && '\n' !in w && !ContainsKeyword(w, "INNER JOIN")
    ensures JoinOrEnd(w[l..]) == None
  {
    var z := w[l..];
    var a := SpaceRun(z);
    assert z[a..] == w[l + a..];
    KeywordNotAt(w, l + a, "INNER JOIN");
    assert AfterKeyword(z, "INNER JOIN") == None;
    assert w[l] in w;
    assert !AtEnd(z);
  }

  /** `\s+(.*?)` after WHERE on one blank and such a text: the whole text. */
  lemma WhereGroupOf(w: string)
    requires IsLineText(w) && !ContainsKeyword(w, "INNER JOIN")
    ensures WhereGroup(" " + w) == Some((w, None))
  {
    SpaceRunOfBlank(w);
    assert (" " + w)[1..] == w;
    WhereRunsToEnd(w, 0);
  }

  /** What follows the table name: a WHERE clause running to the end. */
  lemma AfterFromWhere(t: string, w: string)
    requires IsWord(t) && IsLineText(w) && !ContainsKeyword(w, "INNER JOIN")
    ensures SelectAfterFrom(t + (" WHERE " + w)) == Some((t, Some(w), None))
  {
    var v := " WHERE " + w;
    WordThen(t, v);
    AfterWhereKeyword(w);
    WhereGroupOf(w);
    AfterFromAt(t + v, |t|, Some((w, None)));
  }

  lemma AfterWhereKeyword(w: string)
    ensures AfterKeyword(" WHERE " + w, "WHERE") == Some(" " + w)
  {
    var a := "WHERE" + (" " + w);
    assert " WHERE " + w == " " + a;
    SpaceRunOfBlank(a);
    assert (" " + a)[1..] == a;
    UpperKeywords();
    KeywordPrefix("WHERE", " " + w);
  }

  /** `SelectAfterFrom` when the WHERE branch gives `g`. */
  lemma AfterFromAt(u: string, n: nat, g: Option<(string, Option<(string, string)>)>)
    requires 0 < n <= |u| && WordRun(u) == n
    requires match AfterKeyword(u[n..], "WHERE")
      case None => g == None
      case Some(b) => WhereGroup(b) == g
    requires g.Some?
    ensures SelectAfterFrom(u) == Some((u[..n], Some(g.value.0), g.value.1))
  {
  }

  /** What follows the table name: a join running to the end. */
  lemma AfterFromJoin(t: string, u: string, on: string)
    requires IsWord(t) && IsWord(u) && IsLineText(on)
    ensures SelectAfterFrom(t + (" INNER JOIN " + (u + (" ON " + on)))) == Some((t, None, Some((u, on))))
  {
    var v := " INNER JOIN " + (u + (" ON " + on));
    WordThen(t, v);
    JoinClauseOf(u, on);
    NoWhereBeforeJoin(u + (" ON " + on));
    JoinAfterFromAt(t + v, |t|, (u, on));
  }

  lemma NoWhereBeforeJoin(x: string)
    ensures AfterKeyword(" INNER JOIN " + x, "WHERE") == None
  {
    var v := " INNER JOIN " + x;
    assert v[0] == ' ' && v[1] == 'I' && v[2] == 'N';
    assert SpaceRun(v) == 1;
    assert v[1..][0] == 'I';
  }

  lemma JoinAfterFromAt(s: string, n: nat, j: (string, string))
    requires 0 < n <= |s| && WordRun(s) == n
    requires AfterKeyword(s[n..], "WHERE") == None
    requires JoinClause(s[n..]) == Some(j)
    ensures SelectAfterFrom(s) == Some((s[..n], None, Some(j)))
  {
  }

  /** `\s+INNER JOIN\s+(\w+)\s+ON\s+(.*)$` on ` INNER JOIN u ON on`. */
  lemma JoinClauseOf(u: string, on: string)
    requires IsWord(u) && IsLineText(on)
    ensures JoinClause(" INNER JOIN " + (u + (" ON " + on))) == Some((u, on))
  {
    var rest := " ON " + on;
    var b := u + rest;
    JoinTextIsLine(u, on);
    JoinKeyword(b);
    WordThen(u, rest);
    OnKeyword(on);
    RestOfLineWhole(on);
    JoinClauseAt(" INNER JOIN " + b, b, |u|, on);
  }

  lemma JoinTextIsLine(u: string, on: string)
    requires IsWord(u) && IsLineText(on)
    ensures IsLineText(u + (" ON " + on))
  {
    var rest := " ON " + on;
    var b := u + rest;
    forall i | 0 <= i < |b| ensures b[i] != '\n' {
      if i >= |u| {
        assert b[i] == rest[i - |u|];
        if i - |u| >= 4 { assert rest[i - |u|] == on[i - |u| - 4]; }
      }
    }
  }

  lemma JoinKeyword(b: string)
    requires IsLineText(b)
    ensures KeywordBetweenSpaces(" INNER JOIN " + b, "INNER JOIN") == Some(b)
  {
    assert " INNER JOIN " + b == " " + "INNER JOIN" + " " + b;
    UpperKeywords();
    KeywordThenText("INNER JOIN", b);
  }

  lemma OnKeyword(on: string)
    requires IsLineText(on)
    ensures KeywordBetweenSpaces(" ON " + on, "ON") == Some(on)
  {
    assert " ON " + on == " " + "ON" + " " + on;
    UpperKeywords();
    KeywordThenText("ON", on);
  }

  lemma JoinClauseAt(z: string, b: string, n: nat, on: string)
    requires KeywordBetweenSpaces(z, "INNER JOIN") == Some(b)
    requires 0 < n <= |b| && WordRun(b) == n
    requires KeywordBetweenSpaces(b[n..], "ON") == Some(on)
    requires RestOfLine(on) == Some(on)
    ensures JoinClause(z) == Some((b[..n], on))
  {
  }

  /** A word is its own strip. */
  lemma WordStripped(t: string)
    requires IsWord(t)
    ensures Strip(t) == t
  {
    StripUnpadded(t);
  }

  /** `SELECT c FROM t`: every row of `t`, projected on `c`. */
  lemma RecogniseSelect(c: string, t: string)
    requires '\n' !in c && !ContainsKeyword(c + " ", " FROM ") && IsWord(t)
    ensures MatchSelect("SELECT " + c + " FROM " + t) == Some(SelectMatch(c, t, None, None))
    ensures ParsedQuery("SELECT " + c + " FROM " + t) == Ok(Select(t, Projection(c), None, None))
  {
    var q := "SELECT " + c + " FROM " + t;
    Assoc4("SELECT ", c, " FROM ", t);
    AfterFromPlain(t);
    MatchSelectOf(c, t, (t, None, None));
    SelectParsedAs(q, SelectMatch(c, t, None, None));
  }

  /** `SELECT c FROM t WHERE w`: the WHERE text runs to the end when it holds no
      `INNER JOIN`. */
  lemma RecogniseSelectWhere(c: string, t: string, w: string)
    requires '\n' !in c && !ContainsKeyword(c + " ", " FROM ") && IsWord(t)
    requires IsLineText(w) && !ContainsKeyword(w, "INNER JOIN")
    ensures MatchSelect("SELECT " + c + " FROM " + t + " WHERE " + w) == Some(SelectMatch(c, t, Some(w), None))
    ensures ParsedQuery("SELECT " + c + " FROM " + t + " WHERE " + w) ==
      Ok(Select(t, Projection(c), Some(WhereConditions(w)), None))
  {
    var q := "SELECT " + c + " FROM " + t + " WHERE " + w;
    var rest := t + (" WHERE " + w);
    Assoc6("SELECT ", c, " FROM ", t, " WHERE ", w);
    AfterFromWhere(t, w);
    MatchSelectOf(c, rest, (t, Some(w), None));
    SelectParsedAs(q, SelectMatch(c, t, Some(w), None));
  }

  /** `SELECT c FROM t INNER JOIN u ON on`: the join of `t` with `u` on the columns the
      ON text names, or the error that text raises. */
  lemma RecogniseSelectJoin(c: string, t: string, u: string, on: string)
    requires '\n' !in c && !ContainsKeyword(c + " ", " FROM ") && IsWord(t) && IsWord(u) && IsLineText(on)
    ensures MatchSelect("SELECT " + c + " FROM " + t + " INNER JOIN " + u + " ON " + on) ==
      Some(SelectMatch(c, t, None, Some((u, on))))
    ensures ParsedQuery("SELECT " + c + " FROM " + t + " INNER JOIN " + u + " ON " + on) ==
      match JoinOf(u, on)
      case Ok(j) => Ok(Select(t, Projection(c), None, Some(j)))
      case Err(e) => Err(e)
  {
    var q := "SELECT " + c + " FROM " + t + " INNER JOIN " + u + " ON " + on;
    var rest := t + (" INNER JOIN " + (u + (" ON " + on)));
    Assoc8("SELECT ", c, " FROM ", t, " INNER JOIN ", u, " ON ", on);
    AfterFromJoin(t, u, on);
    MatchSelectOf(c, rest, (t, None, Some((u, on))));
    SelectParsedAs(q, SelectMatch(c, t, None, Some((u, on))));
  }

  /** The statement `_parse_select` builds from a match whose table is a word. */
  lemma SelectParsedAs(q: string, m: SelectMatch)
    requires HasPrefixIgnoringCase(q, "SELECT ") && MatchSelect(q) == Some(m) && IsWord(m.table)
    ensures ParsedQuery(q) ==
      var where := OptionalWhere(m.where);
      if m.join.Some? && m.join.value.1 != "" then
        match JoinOf(m.join.value.0, m.join.value.1)
        case Err(e) => Err(e)
        case Ok(j) => Ok(Select(m.table, Projection(m.columns), where, Some(j)))
      else Ok(Select(m.table, Projection(m.columns), where, None))
  {
    DispatchSelect(q);
    WordStripped(m.table);
  }

  // ---------------------------------------------------------------------------
  // UPDATE
  // ---------------------------------------------------------------------------

  /** Where no WHERE keyword follows the blanks, neither the WHERE group nor the end
      matches, and the lazy SET group moves on. */
  lemma SetGoesOn(y: string, l: nat)
    requires l < |y| && y[l] != '\n'
    requires AfterKeyword(y[l..], "WHERE") == None
    ensures LazySet(y, l) == LazySet(y, l + 1)
  {
    assert y[l..][0] == y[l];
  }

  /** The lazy SET group of a text without a newline or a WHERE keyword runs to the end. */
  lemma {:induction false} SetRunsToEnd(a: string, l: nat)
    requires l <= |a| && '\n' !in a && !ContainsKeyword(a, "WHERE")
    ensures LazySet(a, l) == Some((a, None))
    decreases |a| - l
  {
    if l < |a| {
      SetPassesInside(a, l);
      SetRunsToEnd(a, l + 1);
    } else {
      SetAtEnd(a);
    }
  }

  lemma SetPassesInside(a: string, l: nat)
    requires l < |a| && '\n' !in a && !ContainsKeyword(a, "WHERE")
    ensures LazySet(a, l) == LazySet(a, l + 1)
  {
    var z := a[l..];
    var n := SpaceRun(z);
    assert z[n..] == a[l + n..];
    KeywordNotAt(a, l + n, "WHERE");
    assert a[l] in a;
    SetGoesOn(a, l);
  }

  lemma SetAtEnd(a: string)
    ensures LazySet(a, |a|) == Some((a, None))
  {
    assert a[..|a|] == a;
    assert a[|a|..] == "";
    NoWhereInEmpty();
  }

  /** Inside such a text followed by a blank, the lazy SET group moves on up to the end of
      the text, provided the text does not end in whitespace. */
  lemma {:induction false} SetRunsTo(a: string, rest: string, l: nat)
    requires l <= |a| && '\n' !in a && !ContainsKeyword(a, "WHERE")
    requires |a| > 0 && !IsSpace(a[|a| - 1])
    requires |rest| > 0 && rest[0] == ' '
    ensures LazySet(a + rest, l) == LazySet(a + rest, |a|)
    decreases |a| - l
  {
    if l < |a| {
      var y := a + rest;
      var z := y[l..];
      assert z == a[l..] + rest;
      assert a[l..][|a| - l - 1] == a[|a| - 1];
      SpaceRunWithin(a[l..], rest);
      var n := SpaceRun(z);
      assert z[n..] == y[l + n..];
      KeywordNotAcross(a, rest, l + n, "WHERE");
      assert y[l] == a[l] && a[l] in a;
      SetGoesOn(y, l);
      SetRunsTo(a, rest, l + 1);
    }
  }

  /** The lazy SET group on `a WHERE w` stops before the WHERE clause. */
  lemma SetThenWhere(a: string, w: string)
    requires IsLineText(a) && !IsSpace(a[|a| - 1]) && !ContainsKeyword(a, "WHERE")
    requires IsLineText(w)
    ensures LazySet(a + (" WHERE " + w), 0) == Some((a, Some(w)))
  {
    var v := " WHERE " + w;
    var y := a + v;
    SetRunsTo(a, v, 0);
    assert y[|a|..] == v && y[..|a|] == a;
    WhereToEndOf(w);
  }

  /** `\s+(.*?)` after SET on one blank and text not starting with whitespace. */
  lemma SetGroupOf(x: string, p: (string, Option<string>))
    requires |x| > 0 && !IsSpace(x[0]) && LazySet(x, 0) == Some(p)
    ensures SetGroup(" " + x) == Some(p)
  {
    SpaceRunOfBlank(x);
    assert (" " + x)[1..] == x;
  }

  lemma AfterSetKeyword(x: string)
    ensures AfterKeyword(" SET " + x, "SET") == Some(" " + x)
  {
    var a := "SET" + (" " + x);
    assert " SET " + x == " " + a;
    SpaceRunOfBlank(a);
    assert (" " + a)[1..] == a;
    UpperKeywords();
    KeywordPrefix("SET", " " + x);
  }

  lemma MatchUpdateAt(q: string, r: string, n: nat, b: string, p: (string, Option<string>))
    requires HasPrefixIgnoringCase(q, "UPDATE ") && q[7..] == r
    requires 0 < n <= |r| && WordRun(r) == n
    requires AfterKeyword(r[n..], "SET") == Some(b) && SetGroup(b) == Some(p)
    ensures MatchUpdate(q) == Some(UpdateMatch(r[..n], p.0, p.1))
  {
  }

  /** `UPDATE t SET x` when the lazy SET group on `x` gives `p`. */
  lemma MatchUpdateOf(t: string, x: string, p: (string, Option<string>))
    requires IsWord(t) && |x| > 0 && !IsSpace(x[0]) && LazySet(x, 0) == Some(p)
    ensures HasPrefixIgnoringCase("UPDATE " + (t + (" SET " + x)), "UPDATE ")
    ensures MatchUpdate("UPDATE " + (t + (" SET " + x))) == Some(UpdateMatch(t, p.0, p.1))
  {
    var r := t + (" SET " + x);
    UpperKeywords();
    KeywordPrefix("UPDATE ", r);
    TableThenSet(t, x, p);
    MatchUpdateAt("UPDATE " + r, r, |t|, " " + x, p);
  }

  /** After `UPDATE `: the table name, the SET keyword and the SET group. */
  lemma TableThenSet(t: string, x: string, p: (string, Option<string>))
    requires IsWord(t) && |x| > 0 && !IsSpace(x[0]) && LazySet(x, 0) == Some(p)
    ensures var r := t + (" SET " + x);
      && WordRun(r) == |t| && r[..|t|] == t
      && AfterKeyword(r[|t|..], "SET") == Some(" " + x) && SetGroup(" " + x) == Some(p)
  {
    WordThen(t, " SET " + x);
    AfterSetKeyword(x);
    SetGroupOf(x, p);
  }

  /** The statement `_parse_update` builds from a match. */
  lemma UpdateParsedAs(q: string, m: UpdateMatch)
    requires HasPrefixIgnoringCase(q, "UPDATE ") && MatchUpdate(q) == Some(m)
    ensures ParsedQuery(q) ==
      match Assignments(SplitByCommas(m.setClause), [])
      case Err(e) => Err(e)
      case Ok(pairs) => Ok(Update(m.table, pairs, OptionalWhere(m.where)))
  {
    DispatchUpdate(q);
  }

  /** `UPDATE t SET a`: every row of `t` gets the assignments of `a`, or the first error
      an assignment raises. */
  lemma RecogniseUpdate(t: string, a: string)
    requires IsWord(t) && IsLineText(a) && !ContainsKeyword(a, "WHERE")
    ensures MatchUpdate("UPDATE " + t + " SET " + a) == Some(UpdateMatch(t, a, None))
    ensures ParsedQuery("UPDATE " + t + " SET " + a) ==
      match Assignments(SplitByCommas(a), [])
      case Ok(pairs) => Ok(Update(t, pairs, None))
      case Err(e) => Err(e)
  {
    var q := "UPDATE " + t + " SET " + a;
    MatchUpdatePlain(t, a);
    UpdateParsedAs(q, UpdateMatch(t, a, None));
  }

  lemma MatchUpdatePlain(t: string, a: string)
    requires IsWord(t) && IsLineText(a) && !ContainsKeyword(a, "WHERE")
    ensures HasPrefixIgnoringCase("UPDATE " + t + " SET " + a, "UPDATE ")
    ensures MatchUpdate("UPDATE " + t + " SET " + a) == Some(UpdateMatch(t, a, None))
  {
    Assoc4("UPDATE ", t, " SET ", a);
    SetRunsToEnd(a, 0);
    MatchUpdateOf(t, a, (a, None));
  }

  /** `UPDATE t SET a WHERE w`: the SET text stops at the WHERE clause when it holds no
      WHERE keyword and does not end in whitespace. */
  lemma RecogniseUpdateWhere(t: string, a: string, w: string)
    requires IsWord(t) && IsLineText(a) && !IsSpace(a[|a| - 1]) && !ContainsKeyword(a, "WHERE")
    requires IsLineText(w)
    ensures MatchUpdate("UPDATE " + t + " SET " + a + " WHERE " + w) == Some(UpdateMatch(t, a, Some(w)))
    ensures ParsedQuery("UPDATE " + t + " SET " + a + " WHERE " + w) ==
      match Assignments(SplitByCommas(a), [])
      case Ok(pairs) => Ok(Update(t, pairs, Some(WhereConditions(w))))
      case Err(e) => Err(e)
  {
    var q := "UPDATE " + t + " SET " + a + " WHERE " + w;
    MatchUpdateWhere(t, a, w);
    UpdateParsedAs(q, UpdateMatch(t, a, Some(w)));
  }

  lemma MatchUpdateWhere(t: string, a: string, w: string)
    requires IsWord(t) && IsLineText(a) && !IsSpace(a[|a| - 1]) && !ContainsKeyword(a, "WHERE")
    requires IsLineText(w)
    ensures HasPrefixIgnoringCase("UPDATE " + t + " SET " + a + " WHERE " + w, "UPDATE ")
    ensures MatchUpdate("UPDATE " + t + " SET " + a + " WHERE " + w) == Some(UpdateMatch(t, a, Some(w)))
  {
    var x := a + (" WHERE " + w);
    Assoc6("UPDATE ", t, " SET ", a, " WHERE ", w);
    SetThenWhere(a, w);
    assert x[0] == a[0];
    MatchUpdateOf(t, x, (a, Some(w)));
  }

  // ---------------------------------------------------------------------------
  // Backtracking into the whitespace before a lazy group
  // ---------------------------------------------------------------------------

  /** A newline and then text not starting with whitespace: one character of `\s+`. */
  lemma SpaceRunOfNewline(x: string)
    requires |x| == 0 || !IsSpace(x[0])
    ensures SpaceRun("\n" + x) == 1 && ("\n" + x)[1..] == x
  {
    assert ("\n" + x)[1..] == x;
  }

  /** Two blanks before text that does not start with whitespace. */
  lemma SpaceRunOfTwoBlanks(x: string)
    requires |x| > 0 && !IsSpace(x[0])
    ensures SpaceRun("  " + x) == 2 && ("  " + x)[1..] == " " + x && ("  " + x)[2..] == x
  {
    assert ("  " + x)[1..] == " " + x;
    SpaceRunOfBlank(x);
  }

  /** ` KW`, a newline, then line text: `\s+KW\s+` takes the newline as its last `\s+`. */
  lemma KeywordThenNewline(kw: string, x: string)
    requires UpperLiteral(kw) && |kw| > 0 && !IsSpace(kw[0])
    requires |x| > 0 && !IsSpace(x[0])
    ensures KeywordBetweenSpaces(" " + (kw + ("\n" + x)), kw) == Some(x)
  {
    SpaceRunOfBlank(kw + ("\n" + x));
    assert (" " + (kw + ("\n" + x)))[1..] == kw + ("\n" + x);
    KeywordPrefix(kw, "\n" + x);
    SpaceRunOfNewline(x);
  }

  /** The lazy SET group moves past a character that is neither whitespace nor a newline,
      since `\s+WHERE` cannot start there. */
  lemma SetPassesLetter(y: string, l: nat)
    requires l < |y| && !IsSpace(y[l])
    ensures LazySet(y, l) == LazySet(y, l + 1)
  {
    assert y[l..][0] == y[l];
    SetGoesOn(y, l);
  }

  /** On `WHERE`, a newline and text that does not start with the keyword WHERE, the lazy
      SET group reaches the newline, which `.` does not cross. */
  lemma SetStopsAtNewline(w: string)
    requires IsLineText(w) && !HasPrefixIgnoringCase(w, "WHERE")
    ensures LazySet("WHERE" + ("\n" + w), 0) == None
  {
    SetPassesKeyword(w);
    SetNewline(w);
  }

  lemma SetPassesKeyword(w: string)
    ensures LazySet("WHERE" + ("\n" + w), 0) == LazySet("WHERE" + ("\n" + w), 5)
  {
    var y := "WHERE" + ("\n" + w);
    assert y[0] == 'W' && y[1] == 'H' && y[2] == 'E' && y[3] == 'R' && y[4] == 'E';
    SetPassesLetter(y, 0);
    SetPassesLetter(y, 1);
    SetPassesLetter(y, 2);
    SetPassesLetter(y, 3);
    SetPassesLetter(y, 4);
  }

  lemma SetNewline(w: string)
    requires IsLineText(w) && !HasPrefixIgnoringCase(w, "WHERE")
    ensures LazySet("WHERE" + ("\n" + w), 5) == None
  {
    var y := "WHERE" + ("\n" + w);
    assert y[5..] == "\n" + w;
    SpaceRunOfNewline(w);
  }

  /** `SET  WHERE` + newline + `w`: the lazy SET group cannot run past the newline, so `\s+`
      gives back a blank and the empty group is followed by the WHERE clause. */
  lemma EmptySetBeforeWhere(w: string)
    requires IsLineText(w) && !HasPrefixIgnoringCase(w, "WHERE")
    ensures SetGroup("  " + ("WHERE" + ("\n" + w))) == Some(("", Some(w)))
  {
    var y := "WHERE" + ("\n" + w);
    var b := "  " + y;
    SpaceRunOfTwoBlanks(y);
    SetStopsAtNewline(w);
    UpperKeywords();
    KeywordThenNewline("WHERE", w);
    RestOfLineWhole(w);
    assert WhereToEnd(b[1..]) == Some(w);
  }

  /** `UPDATE t SET  WHERE` + newline + `w` is an UPDATE without assignments whose
      conditions are those of `w`. */
  lemma RecogniseUpdateEmptySet(t: string, w: string)
    requires IsWord(t) && IsLineText(w) && !HasPrefixIgnoringCase(w, "WHERE")
    ensures MatchUpdate("UPDATE " + t + " SET  WHERE\n" + w) == Some(UpdateMatch(t, "", Some(w)))
    ensures ParsedQuery("UPDATE " + t + " SET  WHERE\n" + w) == Ok(Update(t, [], Some(WhereConditions(w))))
  {
    var q := "UPDATE " + t + " SET  WHERE\n" + w;
    var x := " " + ("WHERE" + ("\n" + w));
    var r := t + (" SET " + x);
    EmptySetQuery(t, w);
    UpperKeywords();
    KeywordPrefix("UPDATE ", r);
    EmptySetAfterTable(t, w);
    MatchUpdateAt(q, r, |t|, " " + x, ("", Some(w)));
    UpdateParsedAs(q, UpdateMatch(t, "", Some(w)));
    assert SplitByCommas("") == [];
  }

  lemma EmptySetQuery(t: string, w: string)
    ensures "UPDATE " + t + " SET  WHERE\n" + w == "UPDATE " + (t + (" SET " + (" " + ("WHERE" + ("\n" + w)))))
  {
    assert " SET  WHERE\n" == " SET " + " " + "WHERE" + "\n";
  }

  /** After `UPDATE `: the table name, the SET keyword and the empty SET group. */
  lemma EmptySetAfterTable(t: string, w: string)
    requires IsWord(t) && IsLineText(w) && !HasPrefixIgnoringCase(w, "WHERE")
    ensures var x := " " + ("WHERE" + ("\n" + w));
      var r := t + (" SET " + x);
      && WordRun(r) == |t| && r[..|t|] == t
      && AfterKeyword(r[|t|..], "SET") == Some(" " + x) && SetGroup(" " + x) == Some(("", Some(w)))
  {
    var x := " " + ("WHERE" + ("\n" + w));
    WordThen(t, " SET " + x);
    AfterSetKeyword(x);
    assert " " + x == "  " + ("WHERE" + ("\n" + w));
    EmptySetBeforeWhere(w);
  }

  /** A word followed by ` ON ` does not start with `INNER JOIN`. */
  lemma WordNotInnerJoin(u: string, on: string)
    requires IsWord(u)
    ensures !HasPrefixIgnoringCase(u + (" ON " + on), "INNER JOIN")
  {
    var x := u + (" ON " + on);
    var kw := "INNER JOIN";
    if |x| >= 10 {
      if |u| > 5 {
        assert x[5] == u[5] && IsWordChar(u[5]);
        assert ToUpper(x[5]) != kw[5];
      } else if |u| == 5 {
        assert x[6] == 'O';
        assert ToUpper(x[6]) != kw[6];
      } else {
        assert x[|u|] == ' ';
        assert ToUpper(x[|u|]) != kw[|u|];
      }
    }
  }

  /** The lazy WHERE group moves past a character that is not whitespace, since neither the
      join nor the end starts there. */
  lemma WherePassesLetter(y: string, l: nat)
    requires l < |y| && !IsSpace(y[l])
    ensures LazyWhere(y, l) == LazyWhere(y, l + 1)
  {
    assert y[l..][0] == y[l];
    assert SpaceRun(y[l..]) == 0;
    assert JoinOrEnd(y[l..]) == None;
  }

  /** On `INNER JOIN`, a newline and a join table, the lazy WHERE group reaches the newline
      without the join following anywhere before it. */
  lemma WhereStopsAtNewline(x: string)
    requires IsLineText(x) && !HasPrefixIgnoringCase(x, "INNER JOIN")
    ensures LazyWhere("INNER JOIN" + ("\n" + x), 0) == None
  {
    WherePassesInner(x);
    WherePassesBlank(x);
    WherePassesJoin(x);
    WhereNewline(x);
  }

  lemma WherePassesInner(x: string)
    ensures LazyWhere("INNER JOIN" + ("\n" + x), 0) == LazyWhere("INNER JOIN" + ("\n" + x), 5)
  {
    var y := "INNER JOIN" + ("\n" + x);
    assert y[0] == 'I' && y[1] == 'N' && y[2] == 'N' && y[3] == 'E' && y[4] == 'R';
    WherePassesLetter(y, 0);
    WherePassesLetter(y, 1);
    WherePassesLetter(y, 2);
    WherePassesLetter(y, 3);
    WherePassesLetter(y, 4);
  }

  lemma WherePassesBlank(x: string)
    ensures LazyWhere("INNER JOIN" + ("\n" + x), 5) == LazyWhere("INNER JOIN" + ("\n" + x), 6)
  {
    var y := "INNER JOIN" + ("\n" + x);
    var z := "JOIN" + ("\n" + x);
    assert y[5..] == " " + z;
    SpaceRunOfBlank(z);
    assert (" " + z)[1..] == z;
    assert z[0] == 'J';
    assert JoinOrEnd(y[5..]) == None;
  }

  lemma WherePassesJoin(x: string)
    ensures LazyWhere("INNER JOIN" + ("\n" + x), 6) == LazyWhere("INNER JOIN" + ("\n" + x), 10)
  {
    var y := "INNER JOIN" + ("\n" + x);
    assert y[6] == 'J' && y[7] == 'O' && y[8] == 'I' && y[9] == 'N';
    WherePassesLetter(y, 6);
    WherePassesLetter(y, 7);
    WherePassesLetter(y, 8);
    WherePassesLetter(y, 9);
  }

  lemma WhereNewline(x: string)
    requires IsLineText(x) && !HasPrefixIgnoringCase(x, "INNER JOIN")
    ensures LazyWhere("INNER JOIN" + ("\n" + x), 10) == None
  {
    var y := "INNER JOIN" + ("\n" + x);
    assert y[10..] == "\n" + x;
    SpaceRunOfNewline(x);
    assert JoinOrEnd(y[10..]) == None;
  }

  /** `WHERE  INNER JOIN` + newline + `u ON on`: the lazy WHERE group cannot run past the
      newline, so `\s+` gives back a blank and the empty group is followed by the join. */
  lemma EmptyWhereBeforeJoin(u: string, on: string)
    requires IsWord(u) && IsLineText(on)
    ensures WhereGroup("  " + ("INNER JOIN" + ("\n" + (u + (" ON " + on))))) == Some(("", Some((u, on))))
  {
    var x := u + (" ON " + on);
    var y := "INNER JOIN" + ("\n" + x);
    var b := "  " + y;
    JoinTextIsLine(u, on);
    WordNotInnerJoin(u, on);
    SpaceRunOfTwoBlanks(y);
    WhereStopsAtNewline(x);
    JoinAfterNewline(u, on);
    assert JoinOrEnd(b[1..]) == Some(Some((u, on)));
  }

  /** `\s+INNER JOIN\s+(\w+)\s+ON\s+(.*)$` with a newline after the keyword. */
  lemma JoinAfterNewline(u: string, on: string)
    requires IsWord(u) && IsLineText(on)
    ensures JoinClause(" " + ("INNER JOIN" + ("\n" + (u + (" ON " + on))))) == Some((u, on))
  {
    var rest := " ON " + on;
    var x := u + rest;
    UpperKeywords();
    KeywordThenNewline("INNER JOIN", x);
    WordThen(u, rest);
    OnKeyword(on);
    RestOfLineWhole(on);
    JoinClauseAt(" " + ("INNER JOIN" + ("\n" + x)), x, |u|, on);
  }

  /** `SELECT c FROM t WHERE  INNER JOIN` + newline + `u ON on` is a join with no
      conditions. */
  lemma RecogniseSelectEmptyWhere(c: string, t: string, u: string, on: string)
    requires '\n' !in c && !ContainsKeyword(c + " ", " FROM ") && IsWord(t) && IsWord(u) && IsLineText(on)
    ensures MatchSelect("SELECT " + c + " FROM " + t + " WHERE  INNER JOIN\n" + u + " ON " + on) ==
      Some(SelectMatch(c, t, Some(""), Some((u, on))))
    ensures ParsedQuery("SELECT " + c + " FROM " + t + " WHERE  INNER JOIN\n" + u + " ON " + on) ==
      match JoinOf(u, on)
      case Ok(j) => Ok(Select(t, Projection(c), None, Some(j)))
      case Err(e) => Err(e)
  {
    var q := "SELECT " + c + " FROM " + t + " WHERE  INNER JOIN\n" + u + " ON " + on;
    var rest := t + (" WHERE " + (" " + ("INNER JOIN" + ("\n" + (u + (" ON " + on))))));
    EmptyWhereQuery(c, t, u, on);
    EmptyWhereAfterFrom(t, u, on);
    MatchSelectOf(c, rest, (t, Some(""), Some((u, on))));
    SelectParsedAs(q, SelectMatch(c, t, Some(""), Some((u, on))));
  }

  lemma EmptyWhereQuery(c: string, t: string, u: string, on: string)
    ensures "SELECT " + c + " FROM " + t + " WHERE  INNER JOIN\n" + u + " ON " + on ==
      "SELECT " + (c + (" FROM " + (t + (" WHERE " + (" " + ("INNER JOIN" + ("\n" + (u + (" ON " + on)))))))))
  {
    assert " WHERE  INNER JOIN\n" == " WHERE " + " " + "INNER JOIN" + "\n";
  }

  /** What follows the table name: an empty WHERE group, then the join. */
  lemma EmptyWhereAfterFrom(t: string, u: string, on: string)
    requires IsWord(t) && IsWord(u) && IsLineText(on)
    ensures SelectAfterFrom(t + (" WHERE " + (" " + ("INNER JOIN" + ("\n" + (u + (" ON " + on))))))) ==
      Some((t, Some(""), Some((u, on))))
  {
    var w := " " + ("INNER JOIN" + ("\n" + (u + (" ON " + on))));
    var rest := t + (" WHERE " + w);
    WordThen(t, " WHERE " + w);
    AfterWhereKeyword(w);
    assert " " + w == "  " + ("INNER JOIN" + ("\n" + (u + (" ON " + on))));
    EmptyWhereBeforeJoin(u, on);
    AfterFromAt(rest, |t|, Some(("", Some((u, on)))));
  }

  lemma Assoc4(a: string, b: string, c: string, d: string)
    ensures a + b + c + d == a + (b + (c + d))
  {
  }

  lemma Assoc5(a: string, b: string, c: string, d: string, e: string)
    ensures a + b + c + d + e == a + (b + (c + d + e))
  {
  }

  lemma Assoc6(a: string, b: string, c: string, d: string, e: string, f: string)
    ensures a + b + c + d + e + f == a + (b + (c + (d + (e + f))))
  {
  }

  lemma Assoc8(a: string, b: string, c: string, d: string, e: string, f: string, g: string, h: string)
    ensures a + b + c + d + e + f + g + h == a + (b + (c + (d + (e + (f + (g + h))))))
  {
  }
}
