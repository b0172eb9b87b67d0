/**
 * `format_sql_result` of final_test.py: the sentence that reports the
 * result of a generated query. It dispatches on upper-case fragments of the
 * SQL text and recovers table and column names by splitting that text.
 * A Python `IndexError` (a split with too few pieces) or `ValueError` (`:,`
 * applied to a non-number) is an `Err`.
 */
module ResultFormat {
  import opened Wrappers
  import opened Text
  import opened Numerals

  /** A cell of the result: an integer, or any other value through its text. */
  datatype Cell = Number(n: int) | Opaque(text: string)

  /**
   * What the formatter reads of a result frame: how many rows it has, its
   * top-left cell, and pandas' rendering of the whole frame.
   */
  datatype Frame = Frame(rowCount: nat, topLeft: Cell, rendered: string)

  datatype FormatError = IndexError | ValueError

  /** `f"{c}"` */
  function CellText(c: Cell): string {
    match c
    case Number(n) => IntText(n)
    case Opaque(t) => t
  }

  /** `f"{c:,}"`, which only numbers accept. */
  function CellGrouped(c: Cell): (r: Result<string, FormatError>)
    ensures r.Ok? <==> c.Number?
    ensures c.Number? ==> r.value == IntGrouped(c.n)
  {
    match c
    case Number(n) => Ok(IntGrouped(n))
    case Opaque(_) => Err(ValueError)
  }

  /** `s.split(sep)[1]` */
  function SecondPiece(s: string, sep: string): (r: Result<string, FormatError>)
    requires |sep| > 0
    ensures r.Ok? <==> Contains(s, sep)
    ensures r.Ok? ==> r.value == SplitOn(s, sep)[1]
  {
    var parts := SplitOn(s, sep);
    if |parts| >= 2 then Ok(parts[1]) else Err(IndexError)
  }

  /** The sentence for a null count: `There are {count:,} null values in the {col} column of the {table} table.` */
  function NullCountSentence(sql: string, count: Cell): Result<string, FormatError> {
    match SecondPiece(sql, "WHERE")
    case Err(e) => Err(e)
    case Ok(afterWhere) =>
      var col := RemoveAll(Strip(SplitOn(afterWhere, "IS NULL")[0]), '"');
      match SecondPiece(sql, "FROM")
      case Err(e) => Err(e)
      case Ok(afterFrom) =>
        var table := Strip(SplitOn(afterFrom, "WHERE")[0]);
        match CellGrouped(count)
        case Err(e) => Err(e)
        case Ok(n) => Ok("There are " + n + " null values in the " + col + " column of the " + table + " table.")
  }

  /** The table named by the first quoted string of a column-count query, else `the table`. */
  function PragmaTable(sql: string): string {
    var parts := SplitOn(sql, "'");
    if |parts| >= 2 then parts[1] else "the table"
  }

  /** The table of a row count: the text after the first `FROM`, stripped, without trailing `;`. */
  function RowCountTable(sql: string): string {
    var parts := SplitOn(sql, "FROM");
    if |parts| >= 2 then RStrip(Strip(parts[1]), Some(";")) else "the table"
  }

  /** The three sentences for `COUNT(*)` queries. */
  function CountSentence(sql: string, count: Cell): Result<string, FormatError> {
    if Contains(sql, "IS NULL") then
      NullCountSentence(sql, count)
    else if Contains(sql, "FROM pragma_table_info") then
      Ok("The " + PragmaTable(sql) + " table has " + CellText(count) + " columns.")
    else
      match CellGrouped(count)
      case Err(e) => Err(e)
      case Ok(n) => Ok("There are " + n + " rows in " + RowCountTable(sql) + ".")
  }

  /** The column of an aggregate call: the text between the first `(` and the next `)`, without `"`. */
  function CallArgument(sql: string): string {
    var parts := SplitOn(sql, "(");
    if |parts| >= 2 then RemoveAll(SplitOn(parts[1], ")")[0], '"') else ""
  }

  /** The fallback: how many rows, then the rendered frame. */
  function RowsSentence(frame: Frame): string {
    if frame.rowCount == 0 then "No results found."
    else if frame.rowCount == 1 then "1 row found:\n" + frame.rendered
    else Decimal(frame.rowCount) + " rows found:\n" + frame.rendered
  }

  /** `format_sql_result` */
  function FormatSqlResult(sql: string, frame: Frame): Result<string, FormatError> {
    if Contains(sql, "COUNT(*)") && frame.rowCount > 0 then
      CountSentence(sql, frame.topLeft)
    else if (Contains(sql, "MAX(") || Contains(sql, "MIN(")) && frame.rowCount > 0 then
      var operation := if Contains(sql, "MAX(") then "maximum" else "minimum";
      Ok("The " + operation + " value of " + CallArgument(sql) + " is " + CellText(frame.topLeft) + ".")
    else if Contains(sql, "AVG(") && frame.rowCount > 0 then
      Ok("The average value of " + CallArgument(sql) + " is " + CellText(frame.topLeft) + ".")
    else
      Ok(RowsSentence(frame))
  }

  /** The prefixes of answers that the generator gives directly, without SQL. */
  const DirectPrefixes: seq<string> := ["Tables in the database:", "Columns in"]

  /** `sql.startswith(("Tables in the database:", "Columns in"))`: shown as it is, never executed. */
  predicate IsDirectResponse(sql: string) {
    StartsWith(sql, DirectPrefixes[0]) || StartsWith(sql, DirectPrefixes[1])
  }

  // ---------------------------------------------------------------------
  // Properties
  // ---------------------------------------------------------------------

  /** An empty result always reports `No results found.`, whatever the SQL. */
  lemma {:induction false} EmptyResultNoResults(sql: string, cell: Cell, rendered: string)
    ensures FormatSqlResult(sql, Frame(0, cell, rendered)) == Ok("No results found.")
  {
  }

  /** The fragments are matched case-sensitively: SQL without upper-case letters always gets the row-count fallback. */
  lemma {:induction false} LowerCaseSqlFallsBack(sql: string, frame: Frame)
    requires forall c :: c in sql ==> !IsUpper(c)
    ensures FormatSqlResult(sql, frame) == Ok(RowsSentence(frame))
  {
    MissingCharNotContained(sql, "COUNT(*)", 'C');
    MissingCharNotContained(sql, "MAX(", 'M');
    MissingCharNotContained(sql, "MIN(", 'M');
    MissingCharNotContained(sql, "AVG(", 'A');
  }

  /** The fallback names the row count, in words for one row. */
  lemma {:induction false} RowsSentenceCount(frame: Frame)
    requires frame.rowCount >= 2
    ensures RowsSentence(frame) == Decimal(frame.rowCount) + " rows found:\n" + frame.rendered
    ensures ValueOf(RowsSentence(frame)[..|Decimal(frame.rowCount)|]) == frame.rowCount
  {
    var d := Decimal(frame.rowCount);
    assert (d + " rows found:\n" + frame.rendered)[..|d|] == d;
    DecimalRoundTrip(frame.rowCount);
  }

  /** `COUNT(*)` takes precedence: with a non-empty result the sentence is a count sentence even when `MAX(` also occurs. */
  lemma {:induction false} CountFirst(sql: string, frame: Frame)
    requires Contains(sql, "COUNT(*)") && frame.rowCount > 0
    ensures FormatSqlResult(sql, frame) == CountSentence(sql, frame.topLeft)
  {
  }

  /** A null count needs a `WHERE`: without one the split raises `IndexError`. */
  lemma {:induction false} NullCountNeedsWhere(sql: string, count: Cell)
    requires !Contains(sql, "WHERE")
    ensures NullCountSentence(sql, count) == Err(IndexError)
  {
  }

  /** Counts given as anything but an integer cannot take a `:,` format. */
  lemma {:induction false} RowCountNeedsNumber(sql: string, text: string)
    requires !Contains(sql, "IS NULL") && !Contains(sql, "FROM pragma_table_info")
    ensures CountSentence(sql, Opaque(text)) == Err(ValueError)
  {
  }

  /**
   * For `... FROM t WHERE b IS NULL c`, with one `FROM` and one `WHERE`, the
   * column is `b` stripped and without quotes, the table `t` stripped, and
   * the count carries thousands separators.
   */
  lemma {:induction false} NullCountNames(a: string, t: string, b: string, c: string, n: int)
    requires !Contains(a + "FRO", "FROM")
    requires !Contains(t + "WHERE" + b + "IS NULL" + c, "FROM")
    requires !Contains(a + "FROM" + t + "WHER", "WHERE")
    requires !Contains(b + "IS NULL" + c, "WHERE")
    requires !Contains(b + "IS NUL", "IS NULL")
    ensures NullCountSentence(a + "FROM" + t + "WHERE" + b + "IS NULL" + c, Number(n)) ==
      Ok("There are " + IntGrouped(n) + " null values in the " + RemoveAll(Strip(b), '"')
         + " column of the " + Strip(t) + " table.")
  {
    var rest := t + "WHERE" + b + "IS NULL" + c;
    var tail := b + "IS NULL" + c;
    assert a + "FROM" + t + "WHERE" + b + "IS NULL" + c == a + "FROM" + rest;
    NullCountWhere(a, t, b, c);
    assert "FROM"[..3] == "FRO";
    OnlySecondPiece(a, "FROM", rest);
    assert "IS NULL"[..6] == "IS NUL";
    FirstPiece(b, "IS NULL", c);
    NullCountTable(a, t, b, c);
    NullCountFromPieces(a + "FROM" + rest, n, tail, rest);
  }

  lemma {:induction false} NullCountWhere(a: string, t: string, b: string, c: string)
    requires !Contains(a + "FROM" + t + "WHER", "WHERE")
    requires !Contains(b + "IS NULL" + c, "WHERE")
    ensures SecondPiece(a + "FROM" + (t + "WHERE" + b + "IS NULL" + c), "WHERE") == Ok(b + "IS NULL" + c)
  {
    assert "WHERE"[..4] == "WHER";
    assert a + "FROM" + (t + "WHERE" + b + "IS NULL" + c) == (a + "FROM" + t) + "WHERE" + (b + "IS NULL" + c);
    OnlySecondPiece(a + "FROM" + t, "WHERE", b + "IS NULL" + c);
  }

  lemma {:induction false} NullCountTable(a: string, t: string, b: string, c: string)
    requires !Contains(a + "FROM" + t + "WHER", "WHERE")
    ensures SplitOn(t + "WHERE" + b + "IS NULL" + c, "WHERE")[0] == t
  {
    ContainsSuffix(a + "FROM", t + "WHER", "WHERE");
    assert a + "FROM" + (t + "WHER") == a + "FROM" + t + "WHER";
    assert "WHERE"[..4] == "WHER";
    assert t + "WHERE" + b + "IS NULL" + c == t + "WHERE" + (b + "IS NULL" + c);
    FirstPiece(t, "WHERE", b + "IS NULL" + c);
  }

  /** The null-count sentence in terms of the text after `WHERE` and after `FROM`. */
  lemma {:induction false} NullCountFromPieces(sql: string, n: int, afterWhere: string, afterFrom: string)
    requires SecondPiece(sql, "WHERE") == Ok(afterWhere)
    requires SecondPiece(sql, "FROM") == Ok(afterFrom)
    ensures NullCountSentence(sql, Number(n)) ==
      Ok("There are " + IntGrouped(n) + " null values in the "
         + RemoveAll(Strip(SplitOn(afterWhere, "IS NULL")[0]), '"')
         + " column of the " + Strip(SplitOn(afterFrom, "WHERE")[0]) + " table.")
  {
  }

  /** `s.split(sep)[1]` when `sep` occurs exactly once in `s`. */
  lemma {:induction false} OnlySecondPiece(a: string, sep: string, rest: string)
    requires |sep| > 0 && !Contains(a + sep[..|sep| - 1], sep) && !Contains(rest, sep)
    ensures SecondPiece(a + sep + rest, sep) == Ok(rest)
  {
    SplitFirst(a, sep, rest);
  }

  /** `s.split(sep)[0]` is the text before the first `sep`. */
  lemma {:induction false} FirstPiece(a: string, sep: string, rest: string)
    requires |sep| > 0 && !Contains(a + sep[..|sep| - 1], sep)
    ensures SplitOn(a + sep + rest, sep)[0] == a
  {
    SplitFirst(a, sep, rest);
  }

  /** For `MAX(` or `MIN(`, the operation word follows `MAX(`, and the column is the text between the first `(` and the next `)`. */
  lemma {:induction false} ExtremeSentence(a: string, b: string, c: string, v: Cell, rows: nat, rendered: string)
    requires !Contains(a + "(" + b + ")" + c, "COUNT(*)") && rows > 0
    requires '(' !in a && '(' !in b && ')' !in b
    requires Contains(a + "(" + b + ")" + c, "MAX(") || Contains(a + "(" + b + ")" + c, "MIN(")
    ensures var sql := a + "(" + b + ")" + c;
      FormatSqlResult(sql, Frame(rows, v, rendered)) ==
        Ok("The " + (if Contains(sql, "MAX(") then "maximum" else "minimum") + " value of "
           + RemoveAll(b, '"') + " is " + CellText(v) + ".")
  {
    CallArgumentIs(a, b, c);
  }

  /** `AVG(` is reported the same way, as the average. */
  lemma {:induction false} AverageSentence(a: string, b: string, c: string, v: Cell, rows: nat, rendered: string)
    requires var sql := a + "(" + b + ")" + c;
      !Contains(sql, "COUNT(*)") && !Contains(sql, "MAX(") && !Contains(sql, "MIN(") && Contains(sql, "AVG(")
    requires rows > 0 && '(' !in a && '(' !in b && ')' !in b
    ensures FormatSqlResult(a + "(" + b + ")" + c, Frame(rows, v, rendered)) ==
      Ok("The average value of " + RemoveAll(b, '"') + " is " + CellText(v) + ".")
  {
    CallArgumentIs(a, b, c);
  }

  lemma {:induction false} CallArgumentIs(a: string, b: string, c: string)
    requires '(' !in a && '(' !in b && ')' !in b
    ensures CallArgument(a + "(" + b + ")" + c) == RemoveAll(b, '"')
  {
    var rest := b + ")" + c;
    var w := SplitOn(c, "(")[0];
    assert SplitOn(a + "(" + b + ")" + c, "(")[1] == b + ")" + w by {
      assert a + "(" + b + ")" + c == a + ['('] + rest;
      SplitCharFirst(a, '(', rest);
      assert rest == (b + ")") + c;
      SplitOnPrefix(b + ")", c, '(');
    }
    assert SplitOn(b + ")" + w, ")")[0] == b by {
      SplitCharFirst(b, ')', w);
    }
  }

  /** The column-count sentence names the first quoted string and renders the count without separators. */
  lemma {:induction false} PragmaSentence(a: string, t: string, c: string, n: int)
    requires '\'' !in a && '\'' !in t
    requires Contains(a + "'" + t + "'" + c, "FROM pragma_table_info")
    requires !Contains(a + "'" + t + "'" + c, "IS NULL")
    ensures CountSentence(a + "'" + t + "'" + c, Number(n)) ==
      Ok("The " + t + " table has " + IntText(n) + " columns.")
  {
    assert PragmaTable(a + "'" + t + "'" + c) == t by {
      var rest := t + "'" + c;
      assert a + "'" + t + "'" + c == a + ['\''] + rest;
      SplitCharFirst(a, '\'', rest);
      assert rest == t + ['\''] + c;
      SplitCharFirst(t, '\'', c);
    }
  }

  /**
   * For `... FROM t` with one `FROM`, the row-count sentence names `t`
   * stripped and without trailing `;`, and the count carries thousands
   * separators.
   */
  lemma {:induction false} RowCountSentence(a: string, t: string, n: int, rows: nat, rendered: string)
    requires !Contains(a + "FRO", "FROM") && !Contains(t, "FROM")
    requires var sql := a + "FROM" + t;
      Contains(sql, "COUNT(*)") && !Contains(sql, "IS NULL") && !Contains(sql, "FROM pragma_table_info")
    requires rows > 0
    ensures FormatSqlResult(a + "FROM" + t, Frame(rows, Number(n), rendered)) ==
      Ok("There are " + IntGrouped(n) + " rows in " + RStrip(Strip(t), Some(";")) + ".")
  {
    assert "FROM"[..3] == "FRO";
    OnlySecondPiece(a, "FROM", t);
  }

  /** A row count whose SQL has no `FROM` reports its rows in `the table`. */
  lemma {:induction false} RowCountWithoutFrom(sql: string, n: int)
    requires !Contains(sql, "FROM") && !Contains(sql, "IS NULL")
    ensures CountSentence(sql, Number(n)) == Ok("There are " + IntGrouped(n) + " rows in the table.")
  {
    if Contains(sql, "FROM pragma_table_info") {
      assert "FROM pragma_table_info"[..4] == "FROM";
      ContainsPrefix(sql, "FROM pragma_table_info", "FROM");
    }
    var g := IntGrouped(n);
    assert CountSentence(sql, Number(n)) == Ok("There are " + g + " rows in " + "the table" + ".");
    assert " rows in " + "the table" + "." == " rows in the table.";
    assert "There are " + g + " rows in " + "the table" + "." == "There are " + g + (" rows in " + "the table" + ".");
  }

  /** A column count whose SQL has no `'` names `the table`. */
  lemma {:induction false} PragmaWithoutQuote(sql: string, n: int)
    requires '\'' !in sql
    requires Contains(sql, "FROM pragma_table_info") && !Contains(sql, "IS NULL")
    ensures CountSentence(sql, Number(n)) == Ok("The the table table has " + IntText(n) + " columns.")
  {
    MissingCharNotContained(sql, "'", '\'');
    assert PragmaTable(sql) == "the table";
    assert "The " + "the table" + " table has " == "The the table table has ";
  }

  /** A generated `SELECT` is never taken for a direct answer. */
  lemma {:induction false} SelectIsNotDirect(sql: string)
    requires StartsWith(sql, "SELECT")
    ensures !IsDirectResponse(sql)
  {
    assert sql[0] == 'S';
  }

  /** A listing of tables is shown as it is. */
  lemma {:induction false} TableListingIsDirect(listing: string)
    ensures IsDirectResponse("Tables in the database:" + listing)
  {
    var s := "Tables in the database:" + listing;
    assert s[..|DirectPrefixes[0]|] == DirectPrefixes[0];
  }
}
