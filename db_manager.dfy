/**
 * `refresh_schema` and the schema-document step of `delete_table` in
 * db_manager.py. The database, the metadata directory and `schema.json`
 * are inputs; the document to write is the result.
 */
module DbManager {
  import opened Wrappers
  import opened SchemaDocs

  /**
   * The metadata-first merge: for each metadata column, every column of the
   * table. A metadata column without `name` raises at the first column it is
   * compared with; the handler keeps what was merged before it.
   */
  function MergedMetaOuter(cols: seq<ColumnDoc>, metas: seq<MetaColumn>): (r: seq<ColumnDoc>)
    ensures |r| == |cols|
  {
    MapDescribed(cols, metas[..FirstMalformed(metas)])
  }

  /** `<table>_metadata.json` when it exists, else `<table>.json`. */
  function ChosenMetadata(src: TableSource): (f: FileState<Metadata>)
    ensures !src.primary.Missing? ==> f == src.primary
    ensures src.primary.Missing? ==> f == src.alternative
  {
    if !src.primary.Missing? then src.primary else src.alternative
  }

  /** The entry `refresh_schema` writes for one table. */
  function RefreshEntry(src: TableSource): (e: TableEntry)
    ensures e.tableName == src.name
  {
    var sample := match src.records case Some(rs) => rs case None => [];
    TableEntry(src.name, MergedMetaOuter(ColumnsOf(src.pragma), MetaColumns(ChosenMetadata(src))), sample)
  }

  function RefreshEntries(tables: seq<TableSource>): (es: seq<TableEntry>)
    ensures |es| == |tables|
  {
    seq(|tables|, i requires 0 <= i < |tables| => RefreshEntry(tables[i]))
  }

  /** The document `refresh_schema` writes. */
  function Refreshed(db: seq<TableSource>): Document {
    Assembled(RefreshEntries(UserTables(db)))
  }

  /** The column list built from the PRAGMA rows, one append per row. */
  method CollectColumns(pragma: seq<PragmaRow>) returns (columns: seq<ColumnDoc>)
    ensures columns == ColumnsOf(pragma)
  {
    columns := [];
    for i := 0 to |pragma|
      invariant columns == ColumnsOf(pragma[..i])
    {
      columns := columns + [ColumnDoc(pragma[i].name, pragma[i].declType, None)];
      assert pragma[..i + 1][..i] == pragma[..i];
    }
    assert pragma[..|pragma|] == pragma;
  }

  /**
   * The nested merge loop, metadata column outside. `failed` says whether it
   * stopped on a metadata column without `name`.
   */
  method MergeMetaFirst(columns: seq<ColumnDoc>, metas: seq<MetaColumn>) returns (merged: seq<ColumnDoc>, failed: bool)
    ensures merged == MergedMetaOuter(columns, metas)
    ensures failed <==> columns != [] && FirstMalformed(metas) < |metas|
  {
    merged := columns;
    var m := 0;
    while m < |metas|
      invariant m <= |metas| && (columns != [] ==> m <= FirstMalformed(metas))
      invariant merged == MapDescribed(columns, metas[..m])
    {
      var metaCol := metas[m];
      var c := 0;
      while c < |merged|
        invariant |merged| == |columns| && 0 <= c <= |merged|
        invariant forall i :: 0 <= i < c ==> merged[i] == Described(columns[i], metas[..m + 1])
        invariant forall i :: c <= i < |merged| ==> merged[i] == Described(columns[i], metas[..m])
        invariant metaCol.name.None? ==> c == 0
      {
        if metaCol.name.None? {
          // `meta_col["name"]` raises KeyError
          assert m == FirstMalformed(metas);
          return merged, true;
        }
        DescribedStep(columns[c], metas, m);
        assert merged[c].name == columns[c].name && merged[c].declType == columns[c].declType;
        if merged[c].name == metaCol.name.value && metaCol.description.Some? {
          assert merged[c].(description := metaCol.description) == columns[c].(description := metaCol.description);
          merged := merged[c := merged[c].(description := metaCol.description)];
        }
        c := c + 1;
      }
      assert merged == MapDescribed(columns, metas[..m + 1]);
      m := m + 1;
    }
    assert metas[..|metas|] == metas;
    return merged, false;
  }

  /**
   * The body of `refresh_schema`'s loop for one table: its columns, its
   * sample rows (empty when they cannot be read), then the descriptions of
   * the first metadata file that exists.
   */
  method BuildEntry(src: TableSource) returns (entry: TableEntry)
    ensures entry == RefreshEntry(src)
  {
    var columns := CollectColumns(src.pragma);
    var sampleData := match src.records case Some(rs) => rs case None => [];
    entry := TableEntry(src.name, columns, sampleData);
    var metas: seq<MetaColumn> := [];
    if !src.primary.Missing? {
      metas := MetaColumns(src.primary);
    } else if !src.alternative.Missing? {
      metas := MetaColumns(src.alternative);
    }
    var merged, _ := MergeMetaFirst(entry.columns, metas);
    entry := entry.(columns := merged);
  }

  /** `refresh_schema`: one entry per listed table, the document returned for writing. */
  method RefreshSchema(db: seq<TableSource>) returns (schema: Document)
    ensures schema == Refreshed(db)
  {
    var tables := UserTables(db);
    ghost var entries := RefreshEntries(tables);
    schema := map[];
    for i := 0 to |tables|
      invariant schema == Assembled(entries[..i])
    {
      var entry := BuildEntry(tables[i]);
      schema := schema[tables[i].name := entry];
      assert entries[..i + 1][..i] == entries[..i];
    }
    assert entries[..|tables|] == entries;
  }

  /**
   * The refreshed document holds exactly the listed tables, each under its
   * own name, and each entry is the one built from that table.
   */
  lemma {:induction false} RefreshedTables(db: seq<TableSource>)
    ensures forall t :: t in Refreshed(db) ==> Refreshed(db)[t].tableName == t
    ensures forall src :: src in db && !LikeSqlitePattern(src.name) ==> src.name in Refreshed(db)
    ensures forall t :: t in Refreshed(db) ==>
      exists src :: src in db && !LikeSqlitePattern(src.name) && src.name == t && Refreshed(db)[t] == RefreshEntry(src)
  {
    var tables := UserTables(db);
    var entries := RefreshEntries(tables);
    AssembledFrom(tables, entries);
    forall src | src in db && !LikeSqlitePattern(src.name)
      ensures src.name in Refreshed(db)
    {
      var i :| 0 <= i < |tables| && tables[i] == src;
    }
    forall t | t in Refreshed(db)
      ensures exists src :: src in db && !LikeSqlitePattern(src.name) && src.name == t && Refreshed(db)[t] == RefreshEntry(src)
    {
      var i :| 0 <= i < |tables| && tables[i].name == t && Assembled(entries)[t] == entries[i];
      assert tables[i] in tables;
    }
  }


  /**
   * An entry's columns follow the PRAGMA rows one for one, by name and type,
   * and its sample rows are the empty list when they could not be read.
   */
  lemma {:induction false} RefreshEntryShape(src: TableSource)
    ensures |RefreshEntry(src).columns| == |src.pragma|
    ensures forall i :: 0 <= i < |src.pragma| ==>
      RefreshEntry(src).columns[i].name == src.pragma[i].name
        && RefreshEntry(src).columns[i].declType == src.pragma[i].declType
    ensures src.records.None? ==> RefreshEntry(src).sampleData == []
    ensures src.records.Some? ==> RefreshEntry(src).sampleData == src.records.value
  {
  }

  /**
   * When every metadata column has a name, a column is described exactly when
   * some metadata column of the chosen file describes it, by the last such.
   */
  lemma {:induction false} RefreshDescriptions(src: TableSource, i: int)
    requires 0 <= i < |src.pragma|
    requires FirstMalformed(MetaColumns(ChosenMetadata(src))) == |MetaColumns(ChosenMetadata(src))|
    ensures var metas := MetaColumns(ChosenMetadata(src));
      RefreshEntry(src).columns[i] == Described(ColumnsOf(src.pragma)[i], metas)
      && (RefreshEntry(src).columns[i].description.Some? <==>
          exists j :: 0 <= j < |metas| && Describes(metas[j], src.pragma[i].name))
  {
    var metas := MetaColumns(ChosenMetadata(src));
    assert metas[..|metas|] == metas;
    MergeSpec(ColumnsOf(src.pragma), metas, i);
  }

  /** The alternative file is read only when the `_metadata` file does not exist. */
  lemma {:induction false} AlternativeOnlyWhenMissing(src: TableSource)
    requires !src.primary.Missing?
    ensures RefreshEntry(src) == RefreshEntry(src.(alternative := Missing))
  {
  }

  /**
   * A metadata column without `name` ends the merge: the ones before it are
   * merged into every column, the ones after it into none.
   */
  lemma {:induction false} MalformedKeepsEarlierMerges(cols: seq<ColumnDoc>, before: seq<MetaColumn>, bad: MetaColumn, after: seq<MetaColumn>)
    requires FirstMalformed(before) == |before| && bad.name.None?
    ensures MergedMetaOuter(cols, before + [bad] + after) == MapDescribed(cols, before)
  {
    FirstMalformedAt(before, bad, after);
    assert (before + [bad] + after)[..|before|] == before;
  }

  lemma {:induction false} FirstMalformedAt(before: seq<MetaColumn>, bad: MetaColumn, after: seq<MetaColumn>)
    requires FirstMalformed(before) == |before| && bad.name.None?
    ensures FirstMalformed(before + [bad] + after) == |before|
    decreases |before|
  {
    if before != [] {
      assert (before + [bad] + after)[1..] == before[1..] + [bad] + after;
      FirstMalformedAt(before[1..], bad, after);
    }
  }

  /**
   * `delete_table`'s effect on the schema document. `master` lists the
   * tables the database has; `dropFails` says whether `DROP TABLE` raised.
   * The result says whether the call succeeded and which document, if any,
   * is written back.
   */
  method DeleteTable(tableName: string, master: seq<string>, dropFails: bool, schemaFile: FileState<Document>)
    returns (ok: bool, written: Option<Document>)
    ensures ok <==> tableName in master && !dropFails
    ensures written.Some? <==> ok && schemaFile.Parsed? && tableName in schemaFile.content
    ensures written.Some? ==> tableName !in written.value
    ensures written.Some? ==> forall t :: t != tableName ==> (t in written.value <==> t in schemaFile.content)
    ensures written.Some? ==> forall t :: t in written.value ==> written.value[t] == schemaFile.content[t]
  {
    if tableName !in master {
      return false, None;
    }
    if dropFails {
      return false, None;
    }
    written := None;
    if schemaFile.Parsed? {
      var schema := schemaFile.content;
      if tableName in schema {
        schema := schema - {tableName};
        written := Some(schema);
      }
    }
    return true, written;
  }
}
