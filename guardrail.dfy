/**
 * The read-only checks of MCPValidator: whether a generated SQL query may be
 * run against the schema the validator holds, and whether a model response
 * looks like SQL rather than a refusal. Both revisions of the validator are
 * covered; they differ only in how the projection is cut into items and in
 * the quotes stripped from an item before it is looked up.
 */
module Guardrail {
  import opened Wrappers
  import opened Text
  import opened SqlScan
  import opened ColumnSplit

  /** A table's entry: column name to declared type. */
  type Columns = map<string, string>

  /** The schema document: table name to its columns. */
  type Schema = map<string, Columns>

  /** mcp_utils.py splits the projection on every comma; mcp_utils2.py respects double quotes. */
  datatype Revision = EveryComma | QuoteAware

  const DangerousKeywords: seq<string> := ["drop", "delete", "alter", "update", "insert", "create", "truncate"]
  const AllowedAggregates: seq<string> := ["count", "sum", "avg", "min", "max"]
  const SqlMarkers: seq<string> := ["select", "from"]
  const HallucinationPatterns: seq<string> :=
    ["i don't know", "i cannot", "not sure", "no information", "no data", "error", "undefined", "null", "empty"]

  /** `any(w in s for w in words)` */
  predicate ContainsAny(s: string, words: seq<string>) {
    exists k :: 0 <= k < |words| && Contains(s, words[k])
  }

  /** The projection items as the revision cuts them. */
  function Items(rev: Revision, g: string): seq<string> {
    match rev
    case EveryComma => CommaItems(g)
    case QuoteAware => QuotedItems(g)
  }

  /** The name looked up for an item: the second revision first strips `"` from both ends. */
  function LookupName(rev: Revision, item: string): string {
    match rev
    case EveryComma => item
    case QuoteAware => StripChars(item, Some("\""))
  }

  /** Some referenced table that is in the schema has the column. */
  predicate KnownColumn(schema: Schema, tables: seq<string>, name: string) {
    exists k :: 0 <= k < |tables| && tables[k] in schema && name in schema[tables[k]]
  }

  /** An item passes when it is skipped (an aggregate, or `*`) or names a known column. */
  predicate ItemValid(rev: Revision, schema: Schema, tables: seq<string>, hasAggregate: bool, item: string) {
    (hasAggregate && ContainsAny(Lower(item), AllowedAggregates))
    || item == "*"
    || KnownColumn(schema, tables, LookupName(rev, item))
  }

  /** Every referenced table is a key of the schema. */
  predicate TablesKnown(schema: Schema, tables: seq<string>) {
    forall k :: 0 <= k < |tables| ==> tables[k] in schema
  }

  /** The projection, when the search finds one, has only valid items. */
  predicate ProjectionValid(rev: Revision, schema: Schema, tables: seq<string>, hasAggregate: bool, projection: Option<string>) {
    match projection
    case None => true
    case Some(g) => ItemsValid(rev, schema, tables, hasAggregate, Items(rev, g))
  }

  predicate ItemsValid(rev: Revision, schema: Schema, tables: seq<string>, hasAggregate: bool, items: seq<string>) {
    forall k :: 0 <= k < |items| ==> ItemValid(rev, schema, tables, hasAggregate, items[k])
  }

  /** The checks on the lower-cased query, in the order the validator makes them. */
  predicate LowerAccepted(rev: Revision, schema: Schema, q: string) {
    !ContainsAny(q, DangerousKeywords)
    && StartsWith(Strip(q), "select")
    && TablesKnown(schema, FromTables(q))
    && ProjectionValid(rev, schema, FromTables(q), ContainsAny(q, AllowedAggregates), Projection(q))
  }

  /** What `validate_sql_query` answers once the schema is current. */
  predicate QueryAccepted(rev: Revision, schema: Schema, query: string) {
    LowerAccepted(rev, schema, Lower(query))
  }

  /** The checks of `validate_sql_query` in their order, with its early returns. */
  method ValidateQuery(rev: Revision, schema: Schema, query: string) returns (ok: bool)
    ensures ok == QueryAccepted(rev, schema, query)
  {
    ok := ValidateLowered(rev, schema, Lower(query));
  }

  method ValidateLowered(rev: Revision, schema: Schema, q: string) returns (ok: bool)
    ensures ok == LowerAccepted(rev, schema, q)
  {
    if ContainsAny(q, DangerousKeywords) {
      return false;
    }
    if !StartsWith(Strip(q), "select") {
      return false;
    }
    var tables := FromTables(q);
    ok := CheckTables(schema, tables);
    if !ok {
      return;
    }
    var hasAggregate := ContainsAny(q, AllowedAggregates);
    ok := CheckProjection(rev, schema, tables, hasAggregate, Projection(q));
  }

  /** The projection step: no projection found passes; otherwise every item must be valid. */
  method CheckProjection(rev: Revision, schema: Schema, tables: seq<string>, hasAggregate: bool, projection: Option<string>)
    returns (ok: bool)
    ensures ok == ProjectionValid(rev, schema, tables, hasAggregate, projection)
  {
    if projection.None? {
      return true;
    }
    var columns;
    if rev == EveryComma {
      columns := CommaItems(projection.value);
    } else {
      columns := SplitQuoted(projection.value);
    }
    ok := CheckItems(rev, schema, tables, hasAggregate, columns);
  }

  /** The loop over the names after `from`, returning false at the first one the schema lacks. */
  method CheckTables(schema: Schema, tables: seq<string>) returns (ok: bool)
    ensures ok == TablesKnown(schema, tables)
  {
    var t := 0;
    while t < |tables|
      invariant 0 <= t <= |tables|
      invariant forall k :: 0 <= k < t ==> tables[k] in schema
    {
      if tables[t] !in schema {
        return false;
      }
      t := t + 1;
    }
    return true;
  }

  /** The loop over the projection items, returning false at the first invalid one. */
  method CheckItems(rev: Revision, schema: Schema, tables: seq<string>, hasAggregate: bool, columns: seq<string>)
    returns (ok: bool)
    ensures ok == ItemsValid(rev, schema, tables, hasAggregate, columns)
  {
    ok := FirstFailure(columns, col => ItemValid(rev, schema, tables, hasAggregate, col));
  }

  /**
   * A loop over `items` that returns false at the first item `valid` rejects
   * and true when none is rejected.
   */
  method FirstFailure(items: seq<string>, valid: string -> bool) returns (ok: bool)
    ensures ok <==> forall k :: 0 <= k < |items| ==> valid(items[k])
  {
    var j := 0;
    while j < |items|
      invariant 0 <= j <= |items|
      invariant forall k :: 0 <= k < j ==> valid(items[k])
    {
      if !valid(items[j]) {
        return false;
      }
      j := j + 1;
    }
    return true;
  }

  /** What `validate_response` answers once the schema is current. */
  predicate ResponseAccepted(response: string) {
    var r := Lower(response);
    ContainsAny(r, SqlMarkers) && !ContainsAny(r, HallucinationPatterns)
  }

  /** `validate_response`: the marker test, then the loop over the phrases with an early return. */
  method ValidateResponse(response: string) returns (ok: bool)
    ensures ok == ResponseAccepted(response)
  {
    var r := Lower(response);
    if !ContainsAny(r, SqlMarkers) {
      return false;
    }
    var i := 0;
    while i < |HallucinationPatterns|
      invariant 0 <= i <= |HallucinationPatterns|
      invariant forall k :: 0 <= k < i ==> !Contains(r, HallucinationPatterns[k])
    {
      if Contains(r, HallucinationPatterns[i]) {
        return false;
      }
      i := i + 1;
    }
    return true;
  }

  const ResponseHeader: string := "Based on your query, here's what I found:\n\n"
  const SqlHeader: string := "\n\nGenerated SQL: "

  /** A response that names neither `select` nor `from` is rejected, however it is worded. */
  lemma {:induction false} NoMarkerRejected(response: string)
    requires !Contains(Lower(response), "select") && !Contains(Lower(response), "from")
    ensures !ResponseAccepted(response)
  {
    assert SqlMarkers[0] == "select" && SqlMarkers[1] == "from";
  }

  /** One of the phrases anywhere in the lower-cased response rejects it, even beside a query. */
  lemma {:induction false} PhraseRejected(response: string, k: nat)
    requires k < |HallucinationPatterns| && Contains(Lower(response), HallucinationPatterns[k])
    ensures !ResponseAccepted(response)
  {
  }

  /** `I don't know` has neither marker: it is rejected before any phrase is looked at. */
  lemma {:induction false} DontKnowRejected()
    ensures !ResponseAccepted("I don't know")
  {
    assert Lower("I don't know") == "i don't know";
    MissingCharNotContained("i don't know", "select", 's');
    MissingCharNotContained("i don't know", "from", 'f');
    NoMarkerRejected("I don't know");
  }

  /** `format_response`: the result, then the SQL, under fixed headers. */
  function FormatResponse(sqlQuery: string, result: string): (r: string)
    ensures |r| == |ResponseHeader| + |result| + |SqlHeader| + |sqlQuery|
    ensures StartsWith(r, ResponseHeader)
    ensures EndsWith(r, sqlQuery)
    ensures r[|ResponseHeader|..|ResponseHeader| + |result|] == result
    ensures r[|ResponseHeader| + |result|..|r| - |sqlQuery|] == SqlHeader
  {
    ResponseHeader + result + SqlHeader + sqlQuery
  }

  /** The formatted text determines the result and the query it was built from. */
  lemma {:induction false} FormatResponseInjective(q1: string, r1: string, q2: string, r2: string)
    requires |r1| == |r2|
    requires FormatResponse(q1, r1) == FormatResponse(q2, r2)
    ensures q1 == q2 && r1 == r2
  {
    var f := FormatResponse(q1, r1);
    assert r1 == f[|ResponseHeader|..|ResponseHeader| + |r1|] == r2;
    assert q1 == f[|f| - |q1|..] == q2;
  }

  // ---------------------------------------------------------------------
  // Properties of the query check
  // ---------------------------------------------------------------------

  /** A denylisted word anywhere in the lower-cased query rejects it, whatever else the query says. */
  lemma {:induction false} DangerousRejected(rev: Revision, schema: Schema, query: string, k: nat)
    requires k < |DangerousKeywords| && Contains(Lower(query), DangerousKeywords[k])
    ensures !QueryAccepted(rev, schema, query)
  {
  }

  /** The denylist is a substring test: a column named `created_at` rejects the query. */
  lemma {:induction false} CreatedAtRejected(rev: Revision, schema: Schema, query: string)
    requires Contains(Lower(query), "created_at")
    ensures !QueryAccepted(rev, schema, query)
  {
    assert "created_at"[..6] == DangerousKeywords[5];
    ContainsPrefix(Lower(query), "created_at", DangerousKeywords[5]);
  }

  /** Upper-case letters in the query do not hide a denylisted word. */
  lemma {:induction false} UpperCaseDoesNotHide(rev: Revision, schema: Schema, query: string)
    requires OccursAt(query, "DROP", 0)
    ensures !QueryAccepted(rev, schema, query)
  {
    var q := Lower(query);
    assert q[..4] == "drop";
    ContainsAt(q, DangerousKeywords[0], 0);
  }

  /** An accepted query starts, after stripping, with `select`. */
  lemma {:induction false} AcceptedStartsWithSelect(rev: Revision, schema: Schema, query: string)
    requires QueryAccepted(rev, schema, query)
    ensures StartsWith(Strip(Lower(query)), "select")
    ensures forall k :: 0 <= k < |DangerousKeywords| ==> !Contains(Lower(query), DangerousKeywords[k])
  {
  }

  /** A name after `from` that is not a schema key rejects the query. */
  lemma {:induction false} UnknownTableRejected(rev: Revision, schema: Schema, query: string, k: nat)
    requires k < |FromTables(Lower(query))| && FromTables(Lower(query))[k] !in schema
    ensures !QueryAccepted(rev, schema, query)
  {
  }

  lemma {:induction false} NotAllLower(t: string, key: string, i: nat)
    requires forall c :: c in t ==> !IsUpper(c)
    requires i < |key| && IsUpper(key[i])
    ensures t != key
  {
    assert key[i] in key;
  }

  /** The names after `from` come from the lower-cased query, so a key with an upper-case letter is never one of them. */
  lemma {:induction false} UpperCaseKeyNeverReferenced(query: string, key: string, i: nat)
    requires i < |key| && IsUpper(key[i])
    ensures key !in FromTables(Lower(query))
  {
    var q := Lower(query);
    LowerHasNoUpper(query);
    TablesAreIdentifiers(q);
    var tables := FromTables(q);
    forall k | 0 <= k < |tables|
      ensures tables[k] != key
    {
      NotAllLower(tables[k], key, i);
    }
  }

  /** Hence a query that names any table is rejected when every schema key has an upper-case letter. */
  lemma {:induction false} UpperCaseSchemaRejects(rev: Revision, schema: Schema, query: string)
    requires forall key :: key in schema ==> exists i :: 0 <= i < |key| && IsUpper(key[i])
    requires |FromTables(Lower(query))| > 0
    ensures !QueryAccepted(rev, schema, query)
  {
    var t := FromTables(Lower(query))[0];
    assert t in FromTables(Lower(query));
    forall key | key in schema
      ensures key != t
    {
      var i :| 0 <= i < |key| && IsUpper(key[i]);
      UpperCaseKeyNeverReferenced(query, key, i);
    }
  }

  /** Every character of the captured projection is a character of the query. */
  lemma {:induction false} ProjectionInside(q: string, c: char)
    requires Projection(q).Some? && c in Projection(q).value
    ensures c in q
  {
    var f, b, e := ProjectionWitness(q);
    var i :| 0 <= i < e - b && q[b..e][i] == c;
    assert q[b + i] == c;
  }

  /** Every character of a projection item is a character of the projection. */
  lemma {:induction false} ItemInside(rev: Revision, g: string, k: nat, c: char)
    requires k < |Items(rev, g)| && c in Items(rev, g)[k]
    ensures c in g
  {
    match rev
    case EveryComma =>
      var parts := SplitOn(g, ",");
      StripCharsInside(parts[k], None, c);
      SplitJoin(g, ",");
      JoinInside(parts, ",", k, c);
    case QuoteAware =>
      var raw := RawPieces(g, false);
      assert Kept(raw)[k] == raw[k];
      StripCharsInside(raw[k], None, c);
      RawPiecesInside(g, false, k, c);
  }

  /**
   * The names looked up come from the lower-cased query, so a column key
   * with an upper-case letter is never one of them.
   */
  lemma {:induction false} UpperCaseColumnNeverLooked(rev: Revision, query: string, g: string, k: nat, key: string, i: nat)
    requires Projection(Lower(query)) == Some(g) && k < |Items(rev, g)|
    requires i < |key| && IsUpper(key[i])
    ensures LookupName(rev, Items(rev, g)[k]) != key
  {
    var item := Items(rev, g)[k];
    var name := LookupName(rev, item);
    LowerHasNoUpper(query);
    forall c | c in name
      ensures !IsUpper(c)
    {
      if rev == QuoteAware {
        StripCharsInside(item, Some("\""), c);
      }
      ItemInside(rev, g, k, c);
      ProjectionInside(Lower(query), c);
    }
    NotAllLower(name, key, i);
  }

  /**
   * Hence when every column key has an upper-case letter, a projection item
   * that is neither `*` nor a skipped aggregate rejects the query, even when
   * it names such a column (`SELECT "Button Down" FROM kettlepump`).
   */
  lemma {:induction false} UpperCaseColumnsReject(rev: Revision, schema: Schema, query: string, g: string, k: nat)
    requires Projection(Lower(query)) == Some(g) && k < |Items(rev, g)|
    requires Items(rev, g)[k] != "*"
    requires !(ContainsAny(Lower(query), AllowedAggregates) && ContainsAny(Lower(Items(rev, g)[k]), AllowedAggregates))
    requires forall t, col :: t in schema && col in schema[t] ==> exists i :: 0 <= i < |col| && IsUpper(col[i])
    ensures !QueryAccepted(rev, schema, query)
  {
    var q := Lower(query);
    var tables := FromTables(q);
    var item := Items(rev, g)[k];
    var name := LookupName(rev, item);
    forall j | 0 <= j < |tables| && tables[j] in schema
      ensures name !in schema[tables[j]]
    {
      forall col | col in schema[tables[j]]
        ensures col != name
      {
        var i :| 0 <= i < |col| && IsUpper(col[i]);
        UpperCaseColumnNeverLooked(rev, query, g, k, col, i);
      }
    }
    assert !ItemValid(rev, schema, tables, ContainsAny(q, AllowedAggregates), item);
  }

  /**
   * A query with neither a denylisted word nor `from` passes as soon as it
   * starts with `select`: no table is referenced and there is no projection
   * to check.
   */
  lemma {:induction false} NoFromAccepted(rev: Revision, schema: Schema, query: string)
    requires !ContainsAny(Lower(query), DangerousKeywords)
    requires StartsWith(Strip(Lower(query)), "select")
    requires !Contains(Lower(query), "from")
    ensures QueryAccepted(rev, schema, query)
  {
    var q := Lower(query);
    NoFromNoTables(q);
    ProjectionNeedsFrom(q);
  }

  /** `select 1` is accepted against any schema. */
  lemma {:induction false} SelectOneAccepted(rev: Revision, schema: Schema)
    ensures QueryAccepted(rev, schema, "select 1")
  {
    SelectOneLowered();
    SelectOneHasNoDangerousWord();
    SelectOneShape();
    NoFromAccepted(rev, schema, "select 1");
  }

  lemma {:induction false} SelectOneLowered()
    ensures Lower("select 1") == "select 1"
  {
    LowerKeepsLowercase("select 1");
  }

  lemma {:induction false} SelectOneShape()
    ensures StartsWith(Strip("select 1"), "select")
    ensures !Contains("select 1", "from")
  {
    StripNoop("select 1", None);
    MissingCharNotContained("select 1", "from", 'f');
  }

  lemma {:induction false} LowerKeepsLowercase(s: string)
    requires forall c :: c in s ==> !IsUpper(c)
    ensures Lower(s) == s
  {
  }

  lemma {:induction false} SelectOneHasNoDangerousWord()
    ensures !ContainsAny("select 1", DangerousKeywords)
  {
    SelectOneLacks(['d', 'a', 'u', 'i', 'r']);
    var q := "select 1";
    MissingCharNotContained(q, "drop", 'd');
    MissingCharNotContained(q, "delete", 'd');
    MissingCharNotContained(q, "alter", 'a');
    MissingCharNotContained(q, "update", 'u');
    MissingCharNotContained(q, "insert", 'i');
    MissingCharNotContained(q, "create", 'r');
    MissingCharNotContained(q, "truncate", 'r');
  }

  lemma {:induction false} SelectOneLacks(cs: seq<char>)
    requires cs == ['d', 'a', 'u', 'i', 'r']
    ensures forall c :: c in cs ==> c !in "select 1"
  {
  }

  // ---------------------------------------------------------------------
  // The second revision's quote handling
  // ---------------------------------------------------------------------

  /** A quoted item is looked up without its quotes: `"button down"` as `button down`. */
  lemma {:induction false} QuotedItemLookup(a: string)
    requires '"' !in a
    ensures LookupName(QuoteAware, "\"" + a + "\"") == a
  {
    var s := "\"" + a + "\"";
    var r := RStrip(s, Some("\""));
    assert s[..|s| - 1] == "\"" + a;
    if a == [] {
      assert r == "\"" || r == "";
    } else {
      assert RStrip("\"" + a, Some("\"")) == "\"" + a;
      assert r == "\"" + a;
      assert ("\"" + a)[1..] == a;
      assert LStrip(a, Some("\"")) == a;
    }
  }

  /**
   * Without double quotes in the projection, and without a comma closing it,
   * the two revisions accept exactly the same queries.
   */
  lemma {:induction false} RevisionsAgree(schema: Schema, query: string, g: string)
    requires Projection(Lower(query)) == Some(g) && '"' !in g
    requires var parts := SplitOn(g, ","); parts[|parts| - 1] != ""
    ensures QueryAccepted(EveryComma, schema, query) == QueryAccepted(QuoteAware, schema, query)
  {
    var q := Lower(query);
    var tables := FromTables(q);
    var hasAggregate := ContainsAny(q, AllowedAggregates);
    RevisionsAgreeWithoutQuotes(g);
    UnquotedItems(g);
    var items := CommaItems(g);
    assert Items(QuoteAware, g) == items;
    forall k | 0 <= k < |items|
      ensures ItemValid(EveryComma, schema, tables, hasAggregate, items[k])
         == ItemValid(QuoteAware, schema, tables, hasAggregate, items[k])
    {
      UnquotedLookup(items[k]);
    }
    assert ItemsValid(EveryComma, schema, tables, hasAggregate, items)
        == ItemsValid(QuoteAware, schema, tables, hasAggregate, items);
  }

  /** Items without double quotes are looked up unchanged by both revisions. */
  lemma {:induction false} UnquotedLookup(item: string)
    requires '"' !in item
    ensures LookupName(QuoteAware, item) == LookupName(EveryComma, item)
  {
    StripNoop(item, Some("\""));
  }
}
