# sql-rag guardrails and schema documents in Dafny

This project models the parts of sql-rag that decide what happens to SQL
produced by a language model:

- **MCPValidator** (`mcp_utils.py`, and the revision in `mcp_utils2.py`).
  - It keeps a schema document in memory and reloads it when the file's
    modification time moves forward.
  - On construction it drops the tables the database no longer has.
  - It accepts a query only when all four checks pass:
    - no denylisted word appears;
    - the query starts with `select`;
    - every name after `from` is a schema key;
    - every projection item is `*`, an aggregate or a known column.
  - It accepts a model response only when the response names SQL and
    contains none of a list of evasive phrases.
- **PromptContextManager**: an exchange memory that is appended to, read
  from the tail with `memory[-n:]`, and cleared.
- **`format_sql_result`** (`final_test.py`): the English sentence reporting
  a query result. It also covers the test that lets direct answers through
  unexecuted.
- **The schema-document builders**: `refresh_schema` and `delete_table`
  (`db_manager.py`), and `update_schema` (`create_sample_tables.py`).
  - They produce one entry per user table: its PRAGMA columns, sample rows,
    and column descriptions merged from metadata files.
  - `delete_table` removes one key from the document.

Modules:

- `Wrappers`: `Option` and `Result`.
- `Text`: Python's `lower`, `strip`, `split`, `in` and `replace`, and negative slicing.
- `SqlScan`: the two regular expressions, written as scanners.
- `ColumnSplit`: the two ways of cutting the projection into items.
- `Guardrail`: the pure checks and their loops.
- `Mcp`: the two stateful classes.
- `Numerals`: `str(n)` and `f"{n:,}"`.
- `ResultFormat`: `format_sql_result`.
- `SchemaDocs`, `DbManager` and `SampleTables`: the schema documents.

File contents, modification times and database answers are parameters:

- the parsed schema file;
- the mtime;
- the `sqlite_master` listing;
- PRAGMA rows, sample rows and metadata files, as `TableSource`.

Writes are outputs. The validator records every document it writes in its
`written` field. The document builders return the document they would write.

## Model

| member | source | states |
|---|---|---|
| SqlScan.FromTables | mcp_utils.py:90-91 | `re.findall(r'from\s+([a-zA-Z_][a-zA-Z0-9_]*)')`: the k-th name is the text of the k-th span of the scan |
| SqlScan.TableSpansSound | mcp_utils.py:90-91 | every span the scan yields is the group of a real match of the pattern (`from`, whitespace, maximal identifier) |
| SqlScan.TableSpansMatch | mcp_utils.py:90-91 | where the pattern matches, findall takes that group and resumes after it |
| SqlScan.TablesAreIdentifiers | mcp_utils.py:90-91 | each captured table name is an identifier, and has no upper-case letter when the query has none |
| SqlScan.NoFromNoTables | mcp_utils.py:90-96 | a query without `from` names no table |
| SqlScan.ProjectionSpec | mcp_utils.py:103-105 | one is found iff the pattern matches anywhere, and it is `re.search`'s group: the leftmost match, with the widest leading `\s+`, and the shortest group |
| SqlScan.ProjectionWitness | mcp_utils.py:103-105 | the start, group start and group end found satisfy `SearchMatch`: a match, no match starts earlier, no later group start at that start, no earlier group end |
| SqlScan.SearchStart | mcp_utils.py:103-104 | the position found is at or after where the search began, and a match starts there |
| SqlScan.SearchComplete | mcp_utils.py:103-104 | a match starting at `f` means the search from any earlier `p` finds a start no later than `f` |
| SqlScan.ProjectionAtFirst | mcp_utils.py:103 | at a fixed start, the group begins after the widest `\s+` that lets it end, and ends at the first place it can |
| SqlScan.GreedySpaceWidest | mcp_utils.py:103 | no wider leading `\s+` than the one chosen lets the lazy group end |
| SqlScan.LazyEndComplete | mcp_utils.py:103 | the lazy group ends at the first place where `\s+from` follows |
| SqlScan.ProjectionNeedsFrom | mcp_utils.py:103-105 | a projection is only captured when the query contains `from` |
| SqlScan.ProjectionHasNoNewline | mcp_utils.py:103 | `.` does not cross a newline, so the captured projection has none |
| SqlScan.LazyEndSound | mcp_utils.py:103 | where the lazy group `(.*?)` stops, `\s+from` follows and no newline lies inside the group |
| SqlScan.GreedySpaceSound | mcp_utils.py:103 | the leading `\s+` the scanner settles on is one after which the lazy group can end |
| SqlScan.GreedySpaceComplete | mcp_utils.py:103 | whenever some length of the leading `\s+` lets the group end, the scanner finds a match |
| ColumnSplit.MapStrip | mcp_utils.py:106 | each item is its piece stripped, one item per piece |
| ColumnSplit.CommaItems | mcp_utils.py:106 | `[col.strip() for col in g.split(',')]`; its properties are ColumnSplit.UnquotedItems and ColumnSplit.RevisionsAgreeWithoutQuotes |
| ColumnSplit.RawPieces | mcp_utils2.py:80-91 | the pieces the loop accumulates, the last one still open; ColumnSplit.RawPiecesCutAtEvenQuotes says where it cuts |
| ColumnSplit.QuotedItems | mcp_utils2.py:80-93 | the stripped raw pieces, the last one kept only if non-empty; ColumnSplit.QuotedItemsAtEvenQuotes states them in terms of the cut positions |
| ColumnSplit.CutPieces | mcp_utils2.py:83-91 | the pieces of `s` between the commas preceded by an even number of `"`, in order |
| ColumnSplit.FirstCut | mcp_utils2.py:87 | the first comma at or after a position that is preceded by an even number of `"`, or none |
| ColumnSplit.RawPiecesCutAtEvenQuotes | mcp_utils2.py:83-91 | the loop cuts exactly at the commas preceded by an even number of `"`; a comma preceded by an odd number stays inside its item |
| ColumnSplit.QuotedItemsAtEvenQuotes | mcp_utils2.py:80-93 | the second revision's items are the stripped pieces between those commas, without a trailing empty one |
| ColumnSplit.SplitQuoted | mcp_utils2.py:80-93 | the character loop (quote toggling, cut at unquoted commas, last piece kept only if non-empty) yields the stripped kept raw pieces |
| ColumnSplit.RawPiecesJoin | mcp_utils2.py:83-93 | joining the raw pieces with commas gives back the projection: the loop loses no character |
| ColumnSplit.NoQuotesSplitOnComma | mcp_utils2.py:83-93 | without `"` the loop cuts exactly where `split(',')` does |
| ColumnSplit.QuotedCommaOneItem | mcp_utils2.py:84-91 | a projection that is one quoted name containing commas gives one item |
| ColumnSplit.RevisionsAgreeWithoutQuotes | mcp_utils2.py:80-93 | without quotes both revisions give the same items, except that the first keeps a trailing empty item |
| ColumnSplit.EmptyProjection | mcp_utils2.py:92-93 | an empty projection gives `[""]` in the first revision and `[]` in the second |
| ColumnSplit.UnquotedItems | mcp_utils.py:106 | a projection without `"` gives items without `"` |
| Guardrail.ValidateQuery | mcp_utils.py:78-122 | the check returns exactly `QueryAccepted` for the revision |
| Guardrail.QueryAccepted | mcp_utils.py:72-122 | `validate_sql_query`'s verdict: the checks run on the lower-cased query |
| Guardrail.LowerAccepted | mcp_utils.py:78-122 | no denylisted word, starts with `select` after stripping, every captured table known, and the projection valid |
| Guardrail.ItemValid | mcp_utils.py:107-120 | an item passes if it holds an aggregate when the query has one, is `*`, or is a column of a referenced table in the schema |
| Guardrail.LookupName | mcp_utils2.py:99 | the name an item is looked up under: unchanged in the first revision, `strip('"')` in the second |
| Guardrail.ResponseAccepted | mcp_utils.py:129-150 | the lower-cased response holds `select` or `from`, and no listed phrase |
| Guardrail.ValidateLowered | mcp_utils2.py:64-106 | the four checks in order with early returns, as `LowerAccepted` on the lower-cased query |
| Guardrail.CheckTables | mcp_utils.py:94-96 | the loop returns true iff every captured name is a schema key |
| Guardrail.CheckItems | mcp_utils.py:107-120 | the loop returns true iff every item is an aggregate (when the query has one), `*`, or a column of a referenced table |
| Guardrail.CheckProjection | mcp_utils.py:103-120 | without a `select ... from` match the projection passes; otherwise it is cut into items by the revision's rule and passes iff every item is valid |
| Guardrail.FirstFailure | mcp_utils.py:107-120 | the loop with its early `return False` returns true iff every item passes the test |
| Guardrail.ValidateResponse | mcp_utils.py:130-150 | the marker test and then the phrase loop return exactly `ResponseAccepted` |
| Guardrail.FormatResponse | mcp_utils.py:152-154 | header, result, SQL header, query, in that order and nothing else |
| Guardrail.FormatResponseInjective | mcp_utils.py:152-154 | the formatted text (and the result's length) determine the result and the query |
| Guardrail.DangerousRejected | mcp_utils.py:81-83 | any denylisted word anywhere in the lower-cased query rejects it |
| Guardrail.CreatedAtRejected | mcp_utils.py:81-83 | a column named `created_at` rejects the query (substring test) |
| Guardrail.UpperCaseDoesNotHide | mcp_utils.py:78-83 | `DROP ...` is rejected although the denylist is lower-case |
| Guardrail.AcceptedStartsWithSelect | mcp_utils.py:81-87 | an accepted query starts with `select` after stripping and contains no denylisted word |
| Guardrail.UnknownTableRejected | mcp_utils.py:94-96 | a captured table name missing from the schema rejects the query |
| Guardrail.UpperCaseKeyNeverReferenced | mcp_utils.py:90-95 | a schema key with an upper-case letter is never among the captured names |
| Guardrail.UpperCaseSchemaRejects | mcp_utils.py:90-96 | with only such keys, every query naming a table is rejected |
| Guardrail.UpperCaseColumnNeverLooked | mcp_utils.py:103-116 | no item of a lower-cased query's projection is looked up under a name with an upper-case letter |
| Guardrail.UpperCaseColumnsReject | mcp_utils.py:103-120 | when every column key has an upper-case letter, a query with a plain item is rejected |
| Guardrail.ItemInside | mcp_utils.py:106 | every character of an item occurs in the projection it was cut from |
| Guardrail.ProjectionInside | mcp_utils.py:103-105 | every character of the captured projection occurs in the query |
| Guardrail.NoFromAccepted | mcp_utils.py:103-122 | a denylist-free query starting with `select` and without `from` is accepted |
| Guardrail.SelectOneAccepted | mcp_utils.py:103-122 | `select 1` is accepted against any schema |
| Guardrail.QuotedItemLookup | mcp_utils2.py:99 | the second revision looks a quoted item up without its quotes |
| Guardrail.UnquotedLookup | mcp_utils2.py:99 | items without quotes are looked up unchanged by both revisions |
| Guardrail.RevisionsAgree | mcp_utils2.py:79-105 | without quotes and without a trailing comma, both revisions accept the same queries |
| Guardrail.NoMarkerRejected | mcp_utils.py:130-131 | a response with neither `select` nor `from` is rejected |
| Guardrail.PhraseRejected | mcp_utils.py:134-148 | any listed phrase in the lower-cased response rejects it |
| Guardrail.DontKnowRejected | mcp_utils.py:130-131 | `I don't know` is rejected |
| Mcp.LoadSchema | mcp_utils.py:32-38 | a missing file loads as the empty document |
| Mcp.Reconciled | mcp_utils.py:50-55 | the reconciled document keeps exactly the keys the database lists, with their entries unchanged |
| Mcp.ReconcileIdempotent | mcp_utils.py:50-55 | reconciling twice is reconciling once, and leaves no stale key |
| Mcp.ReconcileUnchanged | mcp_utils.py:50-59 | the document is unchanged exactly when no key is stale |
| Mcp.Validator.constructor | mcp_utils.py:9-14 | load, reconcile when the database answered, and only then take the mtime; the file is written only if a key was dropped |
| Mcp.Validator.ValidateSchemaWithDb | mcp_utils.py:40-59 | the deletion loop leaves the reconciled document and writes it once iff something was deleted |
| Mcp.Validator.CheckSchemaUpdate | mcp_utils.py:23-30 | it reloads iff the mtime is newer, and the remembered mtime never decreases |
| Mcp.Validator.ValidateSqlQuery | mcp_utils.py:72-75 | it refreshes as `_check_schema_update` does (newer mtime: remember it and reload; otherwise nothing changes), then answers `QueryAccepted` against the refreshed schema |
| Mcp.Validator.ValidateResponse | mcp_utils.py:124-127 | it refreshes as `_check_schema_update` does, then answers `ResponseAccepted` |
| Mcp.Validator.UpdateSchema | mcp_utils.py:156-159 | it sets one key, keeps the other keys and writes the file |
| Mcp.Validator.GetTableInfo | mcp_utils.py:161-165 | it refreshes as `_check_schema_update` does, then gives the table's entry in the refreshed schema, or `None` when it is not a key |
| Mcp.Validator.ListTables | mcp_utils.py:167-171 | it refreshes as `_check_schema_update` does, then lists every key of the refreshed schema exactly once |
| Mcp.Validator.RemoveTable | mcp_utils.py:173-177 | it drops only that key and writes the file, or changes nothing when the key is absent |
| Mcp.KeyList | mcp_utils.py:171 | `list(keys)`: each key once |
| Mcp.Recent | mcp_utils2.py:154-155 | `memory[-n:]` for every `n`, including `n == 0` (the whole memory) and negative `n` |
| Mcp.RecentAfterAdd | mcp_utils2.py:147-155 | after an add, a window of `n >= 2` is the older window of `n - 1` plus the new exchange; the window of 1 is the new exchange alone |
| Mcp.RecentSize | mcp_utils2.py:154-155 | a window of `n >= 1` holds `min(n, len(memory))` exchanges |
| Mcp.PromptContextManager.constructor | mcp_utils2.py:144-145 | memory starts empty |
| Mcp.PromptContextManager.Add | mcp_utils2.py:147-152 | one exchange with the given time is appended |
| Mcp.PromptContextManager.GetRecentContext | mcp_utils2.py:154-155 | the slice `memory[-n:]`: a suffix of memory, of `min(n, len(memory))` exchanges when `n >= 1` |
| Mcp.PromptContextManager.ClearMemory | mcp_utils2.py:157-158 | memory becomes empty |
| Numerals.Decimal | final_test.py:20 | `str(n)`: digits only, no leading zero |
| Numerals.DecimalRoundTrip | final_test.py:20 | reading the digits back gives `n` |
| Numerals.GroupedDigits | final_test.py:16 | `f"{n:,}"` without its commas is `str(n)` |
| Numerals.GroupedRoundTrip | final_test.py:16 | `f"{n:,}"` read back without commas is `n` |
| Numerals.SmallUngrouped | final_test.py:16 | below 1000 `f"{n:,}"` equals `str(n)` |
| Numerals.GroupedPieces | final_test.py:16 | `f"{n:,}"` splits at its commas into a first group of one to three digits, without a leading zero, and then groups of exactly three digits; there are several groups iff `n >= 1000` |
| Text.SplitJoin | final_test.py:14-15 | joining the pieces of `s.split(sep)` with `sep` gives back `s` |
| Text.RemoveAllKeeps | final_test.py:14 | `replace(c, '')` only removes: every character left was in the input, and an input without `c` is unchanged |
| Text.StripCharsInside | final_test.py:14-15 | `strip` only removes characters from the ends: whatever is left was in the input |
| ResultFormat.CellGrouped | final_test.py:16 | `:,` succeeds exactly on numbers |
| ResultFormat.SecondPiece | final_test.py:14-15 | `split(sep)[1]` succeeds iff `sep` occurs, else `IndexError` |
| ResultFormat.FormatSqlResult | final_test.py:6-47 | `format_sql_result`: `COUNT(*)`, then `MAX(`/`MIN(`, then `AVG(` with a non-empty result, else the row-count fallback; the lemmas below state each sentence |
| ResultFormat.CountSentence | final_test.py:13-24 | null count if `IS NULL` occurs, else column count if `FROM pragma_table_info` occurs, else row count |
| ResultFormat.NullCountSentence | final_test.py:14-16 | the null-count sentence, or the `IndexError` of a missing `WHERE` or `FROM`, or the `ValueError` of a non-number |
| ResultFormat.PragmaTable | final_test.py:19 | the text after the first `'`, up to the next, or `the table` without a `'` |
| ResultFormat.RowCountTable | final_test.py:23 | the text after the first `FROM`, up to the next, stripped, without trailing `;`, or `the table` without a `FROM` |
| ResultFormat.CallArgument | final_test.py:31 | the text between the first `(` and the next `)`, without `"` |
| ResultFormat.RowsSentence | final_test.py:42-47 | `No results found.`, `1 row found:` or `<n> rows found:` followed by the rendered frame |
| ResultFormat.IsDirectResponse | final_test.py:56 | the text starts with `Tables in the database:` or with `Columns in` |
| ResultFormat.EmptyResultNoResults | final_test.py:9-43 | an empty result gives `No results found.` whatever the SQL |
| ResultFormat.LowerCaseSqlFallsBack | final_test.py:9-47 | SQL without upper-case letters always gets the row-count fallback |
| ResultFormat.RowsSentenceCount | final_test.py:46-47 | with two or more rows the sentence starts with the row count in decimal |
| ResultFormat.CountFirst | final_test.py:9-11 | `COUNT(*)` wins over `MAX(` and the other fragments |
| ResultFormat.NullCountNeedsWhere | final_test.py:13-14 | a null count without `WHERE` raises `IndexError` |
| ResultFormat.RowCountNeedsNumber | final_test.py:22-24 | a row count that is not a number raises `ValueError` |
| ResultFormat.NullCountNames | final_test.py:13-16 | with one `FROM` and one `WHERE`, the sentence names the stripped, unquoted column and the stripped table, with a grouped count |
| ResultFormat.NullCountFromPieces | final_test.py:14-16 | the null sentence in terms of the texts after `WHERE` and `FROM` |
| ResultFormat.ExtremeSentence | final_test.py:27-32 | `MAX(`/`MIN(` sentences name the operation and the unquoted text between `(` and `)` |
| ResultFormat.AverageSentence | final_test.py:35-39 | `AVG(` is reported as the average of that text |
| ResultFormat.CallArgumentIs | final_test.py:31 | the column is the text between the first `(` and the next `)`, without `"` |
| ResultFormat.PragmaSentence | final_test.py:18-20 | the column count names the first quoted string and prints the count without separators |
| ResultFormat.RowCountSentence | final_test.py:22-24 | with one `FROM`, the row count names the text after it, stripped and without trailing `;`, with a grouped count |
| ResultFormat.RowCountWithoutFrom | final_test.py:23-24 | without a `FROM`, the rows are reported in `the table` |
| ResultFormat.PragmaWithoutQuote | final_test.py:19-20 | a column count without a `'` names `the table` |
| ResultFormat.SelectIsNotDirect | final_test.py:56-58 | a generated `SELECT` is never taken for a direct answer |
| ResultFormat.TableListingIsDirect | final_test.py:56-58 | a table listing is shown as it is |
| SchemaDocs.UserTables | db_manager.py:41-42 | the listing keeps exactly the tables not matching `LIKE 'sqlite_%'` |
| SchemaDocs.UserPositions | db_manager.py:41-42 | the positions of the kept tables, increasing, and every position whose name does not match |
| SchemaDocs.UserTablesInOrder | db_manager.py:41-42 | the listing is the database's order filtered: its k-th table is the one at the k-th kept position |
| SchemaDocs.InternalTablesSkipped | create_sample_tables.py:215-216 | tables named `sqlite_...` are never listed |
| SchemaDocs.WildcardAlsoSkips | db_manager.py:41 | `_` is a wildcard and the match ignores case: `sqlite1x` and `SQLite_x` are skipped too |
| SchemaDocs.ColumnsOf | db_manager.py:203-209 | one column per PRAGMA row |
| SchemaDocs.LastDescriptionSpec | db_manager.py:235-238 | a description is found iff some metadata column describes the name, and it is the last such one |
| SchemaDocs.DescribedStep | db_manager.py:236-238 | one more metadata column overrides the description iff it describes the column |
| SchemaDocs.MergeSpec | db_manager.py:234-238 | the merge keeps the name, the type and the column count; a column gains a description iff some metadata column with its name has one, and the last one wins |
| SchemaDocs.FirstMalformed | db_manager.py:237 | the position of the first metadata column whose `name` lookup raises |
| SchemaDocs.MetaColumns | db_manager.py:234 | no columns to merge unless the file parsed and has `columns` |
| SchemaDocs.AssembledKeys | db_manager.py:219-223 | the document has one key per entry's table name, each entry under its own name |
| SchemaDocs.AssembledLookup | db_manager.py:219-223 | with distinct names, each entry is found under its name |
| SchemaDocs.Assembled | db_manager.py:219-223 | `schema[table_name] = entry` for each entry in turn; SchemaDocs.AssembledKeys states the keys |
| DbManager.CollectColumns | db_manager.py:203-209 | the append loop builds the PRAGMA column list |
| DbManager.MergeMetaFirst | db_manager.py:234-240 | the metadata-outside nested loop gives the merge up to the first malformed metadata column, and fails iff it reaches one |
| DbManager.ChosenMetadata | db_manager.py:226-252 | `<table>_metadata.json` when it exists, else `<table>.json` |
| DbManager.BuildEntry | db_manager.py:201-252 | one table's entry: PRAGMA columns, samples or `[]`, merged descriptions |
| DbManager.RefreshSchema | db_manager.py:193-223 | the loop builds the document of all listed tables |
| DbManager.RefreshedTables | db_manager.py:196-223 | exactly the listed tables are keys, each entry's `table_name` is its key, and each entry is built from that table |
| DbManager.RefreshEntryShape | db_manager.py:201-216 | columns follow the PRAGMA rows by name and type, in order; samples are `[]` when the read fails |
| DbManager.RefreshDescriptions | db_manager.py:234-238 | with well-formed metadata, a column is described iff the chosen file describes it |
| DbManager.AlternativeOnlyWhenMissing | db_manager.py:229-241 | the alternative file is ignored when `<table>_metadata.json` exists |
| DbManager.MalformedKeepsEarlierMerges | db_manager.py:234-240 | a metadata column without `name` ends the merge; the earlier ones stay merged into every column |
| DbManager.DeleteTable | db_manager.py:55-117 | false with no effect when the table does not exist or the drop fails; otherwise the document is rewritten without exactly that key, and only if the key was present |
| DbManager.Refreshed | db_manager.py:193-223 | the document `refresh_schema` writes: one entry per listed table; DbManager.RefreshedTables states it |
| DbManager.RefreshEntry | db_manager.py:201-252 | one table's entry under its own name |
| DbManager.MergedMetaOuter | db_manager.py:234-240 | the metadata-outside merge: the column count is kept, and only the metadata columns before the first malformed one are merged |
| SampleTables.ZipRecordSpec | create_sample_tables.py:242-244 | `dict(zip(...))` has the names up to the shorter list as keys, each with the value at its last position |
| SampleTables.ZipDistinct | create_sample_tables.py:242-244 | with distinct names, each column is paired with its own value |
| SampleTables.SampleRecords | create_sample_tables.py:242-244 | the append loop builds one record per row |
| SampleTables.MergeColumnFirst | create_sample_tables.py:260-266 | the column-outside nested loop gives the full merge, or on a malformed metadata column only the first column's partial merge |
| SampleTables.BuildSampleEntry | create_sample_tables.py:223-266 | one table's entry |
| SampleTables.UpdateSchema | create_sample_tables.py:214-251 | the loop builds the document of all listed tables |
| SampleTables.UpdatedTables | create_sample_tables.py:215-251 | exactly the listed tables are keys, each under its own name, each built from that table |
| SampleTables.MergeOrdersAgree | create_sample_tables.py:260-264 | with well-formed metadata the two merge orders agree |
| SampleTables.MalformedKeepsFirstColumn | create_sample_tables.py:256-266 | on a malformed metadata column, the first column keeps the earlier descriptions and the rest stay unchanged |
| SampleTables.SampleRowsShape | create_sample_tables.py:239-244 | a sample row's keys are the PRAGMA names up to the shorter of the name list and the row |
| SampleTables.SampleEntry | create_sample_tables.py:223-266 | one table's entry under its own name: PRAGMA columns, merged descriptions, sample records |

## Where the code and the project's documentation differ

The model follows the code in both places below.

- Mixed-case column keys:
  - The project's documentation says that `SELECT "Button Down" FROM kettlepump`
    is accepted when the schema has that column.
  - The code lower-cases the query but not the schema keys. A key with an
    upper-case letter therefore never matches.
  - For table keys, `Guardrail.UpperCaseKeyNeverReferenced` and
    `Guardrail.UpperCaseSchemaRejects` state the consequence. For column keys,
    `Guardrail.UpperCaseColumnNeverLooked` shows that no item is looked up
    under such a name. `Guardrail.UpperCaseColumnsReject` then shows that the
    example query is rejected whenever every column key has an upper-case
    letter.
- `MAX(`/`MIN(` sentences: the documentation has them name the table; the
  code names only the operation, the column and the value.

## Left out

- Reading and writing files, `os.path.getmtime`, `os.makedirs`, `os.remove`
  and every SQLite call are not modelled. Their answers are parameters and
  the documents written are results. Deleting metadata files in
  `delete_table` and the `DROP TABLE` itself are not modelled beyond
  "succeeded or raised".
- A schema file that exists but is not valid JSON makes `_load_schema`
  raise. The model only distinguishes present from missing.
- Lower-casing is ASCII only. Python's `str.lower` also folds non-ASCII
  letters.
- Key order is not modelled. `Mcp.Validator.ListTables` and the deletion
  loop in `_validate_schema_with_db` see the keys as a set, not in
  insertion order.
- The validator's schema is modelled as table to (column to type), which is
  the shape `validate_sql_query` and its tests use. The builders write
  entries of the form `{table_name, columns, sample_data}`. Against such a
  document, `col in schema[table].keys()` would compare column names with
  those three keys.
- `ResultFormat` sees a result frame only through its row count, its
  top-left cell and pandas' `to_string` rendering, which is opaque text.
  - A frame with rows but no columns is not modelled.
  - Floating-point values are not modelled. `:,` formats a float too
    (`f"{1.5:,}"` is `1.5`), but `Opaque` cells stand only for values that
    `:,` refuses, such as strings.
- SchemaDocs.MetaColumn: a metadata column's `name` and `description` are
  strings or absent. JSON `null`, non-string values and list elements that are
  not objects are not modelled. With `"description": null` the code writes
  `null` as the column's description, where `SchemaDocs.LastDescription`, and
  with it `DbManager.MergedMetaOuter` and `SampleTables.MergedColumnOuter`, keep
  the earlier description. With `"name": null` the code compares unequal and
  goes on, where the model reads an absent name and ends the merge. A
  non-object element raises a `TypeError` that the code catches, keeping the
  partial merge.
- `datetime.utcnow().isoformat()` is a parameter of `Add`.
- The default `n = 5` of `get_recent_context` is not modelled: every call
  passes `n`.
- The PRAGMA read in `refresh_schema` (db_manager.py:201) has no `try`, and
  neither have the PRAGMA read and the sample `SELECT` in `update_schema`
  (create_sample_tables.py:223, 234, 238). A failure there aborts the whole
  function with no document written. `DbManager.RefreshSchema` and
  `SampleTables.UpdateSchema` take those answers as inputs and always return
  a document.
- In `_validate_schema_with_db`, when `sqlite3.connect` itself raises, `conn`
  is unbound, so `conn.close()` in the `finally` raises `UnboundLocalError`
  (mcp_utils.py:43, 64) and the constructor fails. `Mcp.Validator.constructor`
  instead goes on with the loaded document when the database gives no answer.
- `refresh_schema`'s sample rows come from pandas `to_dict(orient="records")`
  and are an input. Sample values are their text.
- `run_query`, `generate_sql_from_prompt`, llm_utils.py, app.py, db_utils.py
  and delete_table.py are not part of this model. The schema step of
  delete_table.py is the same as `DbManager.DeleteTable`.
- Guardrail.FormatResponseInjective: it needs the two results to have equal
  length, because the result text may itself contain the SQL header.
- Mcp.RecentAfterAdd: it holds only for `n >= 2` and, separately, for
  `n == 1`. For `n == 0`, `memory[-0:]` is the whole memory, so that case is
  covered by `Mcp.Recent` instead.
