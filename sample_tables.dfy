/**
 * `update_schema` in create_sample_tables.py: the same document as
 * `refresh_schema`, with sample rows zipped with the PRAGMA column names,
 * only `<table>_metadata.json` consulted, and the description merge run
 * with the table's column outside and the metadata column inside.
 */
module SampleTables {
  import opened SchemaDocs
  import DbManager

  function Min(a: nat, b: nat): nat {
    if a < b then a else b
  }

  /** `dict(zip(names, row))`: pairs by position up to the shorter list; a repeated name keeps its last value. */
  function ZipRecord(names: seq<string>, row: seq<string>): Record
    decreases |names|
  {
    var n := Min(|names|, |row|);
    if n == 0 then map[] else ZipRecord(names[..n - 1], row[..n - 1])[names[n - 1] := row[n - 1]]
  }

  /** `names[i]` does not occur again before position `n`. */
  predicate LastBefore(names: seq<string>, i: int, n: int)
    requires 0 <= i < n <= |names|
  {
    forall j :: i < j < n ==> names[j] != names[i]
  }

  /**
   * The record's keys are the names that have a value, and each name is paired
   * with the value at its last position before the shorter list ends.
   */
  lemma {:induction false} ZipRecordSpec(names: seq<string>, row: seq<string>)
    ensures forall k :: k in ZipRecord(names, row) <==> exists i :: 0 <= i < Min(|names|, |row|) && names[i] == k
    ensures forall i :: 0 <= i < Min(|names|, |row|) && LastBefore(names, i, Min(|names|, |row|)) ==>
      names[i] in ZipRecord(names, row) && ZipRecord(names, row)[names[i]] == row[i]
    decreases |names|
  {
    var n := Min(|names|, |row|);
    if n > 0 {
      var ns, rs := names[..n - 1], row[..n - 1];
      ZipRecordSpec(ns, rs);
      ZipKeysStep(names, row, ns, rs);
      ZipValuesStep(names, row, ns, rs);
    }
  }

  /** One step of the zip, for the keys: the last name joins those of the shorter prefixes. */
  lemma {:induction false} ZipKeysStep(names: seq<string>, row: seq<string>, ns: seq<string>, rs: seq<string>)
    requires Min(|names|, |row|) > 0
    requires ns == names[..Min(|names|, |row|) - 1] && rs == row[..Min(|names|, |row|) - 1]
    requires forall k :: k in ZipRecord(ns, rs) <==> exists i :: 0 <= i < Min(|ns|, |rs|) && ns[i] == k
    ensures forall k :: k in ZipRecord(names, row) <==> exists i :: 0 <= i < Min(|names|, |row|) && names[i] == k
  {
    var n := Min(|names|, |row|);
    assert Min(|ns|, |rs|) == n - 1;
    var z := ZipRecord(names, row);
    assert z == ZipRecord(ns, rs)[names[n - 1] := row[n - 1]];
    forall k ensures k in z <==> exists i :: 0 <= i < n && names[i] == k {
      if k in z && k != names[n - 1] {
        var i :| 0 <= i < n - 1 && ns[i] == k;
        assert names[i] == k;
      }
      if k !in z {
        forall i | 0 <= i < n ensures names[i] != k {
          if i < n - 1 { assert ns[i] == names[i]; }
        }
      }
    }
  }

  /** One step of the zip, for the values: the last pair overrides earlier ones with its name. */
  lemma {:induction false} ZipValuesStep(names: seq<string>, row: seq<string>, ns: seq<string>, rs: seq<string>)
    requires Min(|names|, |row|) > 0
    requires ns == names[..Min(|names|, |row|) - 1] && rs == row[..Min(|names|, |row|) - 1]
    requires forall i :: 0 <= i < Min(|ns|, |rs|) && LastBefore(ns, i, Min(|ns|, |rs|)) ==>
      ns[i] in ZipRecord(ns, rs) && ZipRecord(ns, rs)[ns[i]] == rs[i]
    ensures forall i :: 0 <= i < Min(|names|, |row|) && LastBefore(names, i, Min(|names|, |row|)) ==>
      names[i] in ZipRecord(names, row) && ZipRecord(names, row)[names[i]] == row[i]
  {
    var n := Min(|names|, |row|);
    assert Min(|ns|, |rs|) == n - 1;
    var z := ZipRecord(names, row);
    assert z == ZipRecord(ns, rs)[names[n - 1] := row[n - 1]];
    forall i | 0 <= i < n && LastBefore(names, i, n)
      ensures names[i] in z && z[names[i]] == row[i]
    {
      if i < n - 1 {
        assert names[n - 1] != names[i];
        assert ns[i] == names[i] && rs[i] == row[i];
        assert LastBefore(ns, i, n - 1) by {
          forall j | i < j < n - 1 ensures ns[j] != ns[i] {
            assert ns[j] == names[j];
          }
        }
      }
    }
  }

  /** Columns with distinct names: every column up to the shorter list is paired with its own value. */
  lemma {:induction false} ZipDistinct(names: seq<string>, row: seq<string>, i: int)
    requires 0 <= i < |names| && i < |row|
    requires forall j, k :: 0 <= j < k < |names| ==> names[j] != names[k]
    ensures names[i] in ZipRecord(names, row) && ZipRecord(names, row)[names[i]] == row[i]
    ensures |names| <= |row| ==> forall k :: k in ZipRecord(names, row) <==> k in names
  {
    ZipRecordSpec(names, row);
  }

  /** The sample rows, each as a record. */
  function SampleRows(names: seq<string>, rows: seq<seq<string>>): (r: seq<Record>)
    ensures |r| == |rows|
  {
    seq(|rows|, i requires 0 <= i < |rows| => ZipRecord(names, rows[i]))
  }

  /** `for row in rows: sample_data.append(dict(zip(col_names, row)))` */
  method SampleRecords(names: seq<string>, rows: seq<seq<string>>) returns (sampleData: seq<Record>)
    ensures sampleData == SampleRows(names, rows)
  {
    sampleData := [];
    for i := 0 to |rows|
      invariant sampleData == SampleRows(names, rows[..i])
    {
      sampleData := sampleData + [ZipRecord(names, rows[i])];
    }
    assert rows[..|rows|] == rows;
  }

  /**
   * The column-first merge. A metadata column without `name` raises while
   * the first column is being merged: that column keeps the descriptions of
   * the metadata columns before it, and the rest stay as they were.
   */
  function MergedColumnOuter(cols: seq<ColumnDoc>, metas: seq<MetaColumn>): (r: seq<ColumnDoc>)
    ensures |r| == |cols|
  {
    var k := FirstMalformed(metas);
    if k == |metas| then MapDescribed(cols, metas)
    else if cols == [] then cols
    else cols[0 := Described(cols[0], metas[..k])]
  }

  /** The nested merge loop, table column outside. */
  method MergeColumnFirst(columns: seq<ColumnDoc>, metas: seq<MetaColumn>) returns (merged: seq<ColumnDoc>, failed: bool)
    ensures merged == MergedColumnOuter(columns, metas)
    ensures failed <==> columns != [] && FirstMalformed(metas) < |metas|
  {
    merged := columns;
    var c := 0;
    while c < |merged|
      invariant |merged| == |columns| && 0 <= c <= |merged|
      invariant c > 0 ==> FirstMalformed(metas) == |metas|
      invariant forall i :: 0 <= i < c ==> merged[i] == Described(columns[i], metas)
      invariant forall i :: c <= i < |merged| ==> merged[i] == columns[i]
    {
      var m := 0;
      while m < |metas|
        invariant m <= FirstMalformed(metas)
        invariant |merged| == |columns|
        invariant merged[c] == Described(columns[c], metas[..m])
        invariant forall i :: 0 <= i < |merged| && i != c ==> merged[i] == if i < c then Described(columns[i], metas) else columns[i]
      {
        var metaCol := metas[m];
        if metaCol.name.None? {
          // `meta_col["name"]` raises KeyError; the handler keeps what was merged
          assert m == FirstMalformed(metas) && c == 0;
          return merged, true;
        }
        DescribedStep(columns[c], metas, m);
        if metaCol.name.value == merged[c].name && metaCol.description.Some? {
          assert merged[c].(description := metaCol.description) == columns[c].(description := metaCol.description);
          merged := merged[c := merged[c].(description := metaCol.description)];
        }
        m := m + 1;
      }
      assert metas[..|metas|] == metas;
      c := c + 1;
    }
    return merged, false;
  }

  /** The entry `update_schema` writes for one table. */
  function SampleEntry(src: TableSource): (e: TableEntry)
    ensures e.tableName == src.name
  {
    TableEntry(src.name, MergedColumnOuter(ColumnsOf(src.pragma), MetaColumns(src.primary)),
               SampleRows(NamesOf(src.pragma), src.rows))
  }

  function SampleEntries(tables: seq<TableSource>): (es: seq<TableEntry>)
    ensures |es| == |tables|
  {
    seq(|tables|, i requires 0 <= i < |tables| => SampleEntry(tables[i]))
  }

  /** The document `update_schema` writes. */
  function Updated(db: seq<TableSource>): Document {
    Assembled(SampleEntries(UserTables(db)))
  }

  /** The body of `update_schema`'s loop for one table. */
  method BuildSampleEntry(src: TableSource) returns (entry: TableEntry)
    ensures entry == SampleEntry(src)
  {
    var columns := DbManager.CollectColumns(src.pragma);
    var colNames := NamesOf(src.pragma);
    var sampleData := SampleRecords(colNames, src.rows);
    entry := TableEntry(src.name, columns, sampleData);
    if !src.primary.Missing? {
      var merged, _ := MergeColumnFirst(entry.columns, MetaColumns(src.primary));
      entry := entry.(columns := merged);
    }
  }

  /** `update_schema`: one entry per listed table, the document returned for writing. */
  method UpdateSchema(db: seq<TableSource>) returns (schema: Document)
    ensures schema == Updated(db)
  {
    var tables := UserTables(db);
    ghost var entries := SampleEntries(tables);
    schema := map[];
    for i := 0 to |tables|
      invariant schema == Assembled(entries[..i])
    {
      var entry := BuildSampleEntry(tables[i]);
      schema := schema[tables[i].name := entry];
      assert entries[..i + 1][..i] == entries[..i];
    }
    assert entries[..|tables|] == entries;
  }

  /**
   * The document holds exactly the listed tables, each under its own name,
   * and each entry is the one built from that table.
   */
  lemma {:induction false} UpdatedTables(db: seq<TableSource>)
    ensures forall t :: t in Updated(db) ==> Updated(db)[t].tableName == t
    ensures forall src :: src in db && !LikeSqlitePattern(src.name) ==> src.name in Updated(db)
    ensures forall t :: t in Updated(db) ==>
      exists src :: src in db && !LikeSqlitePattern(src.name) && src.name == t && Updated(db)[t] == SampleEntry(src)
  {
    var tables := UserTables(db);
    var entries := SampleEntries(tables);
    AssembledFrom(tables, entries);
    forall src | src in db && !LikeSqlitePattern(src.name)
      ensures src.name in Updated(db)
    {
      var i :| 0 <= i < |tables| && tables[i] == src;
    }
    forall t | t in Updated(db)
      ensures exists src :: src in db && !LikeSqlitePattern(src.name) && src.name == t && Updated(db)[t] == SampleEntry(src)
    {
      var i :| 0 <= i < |tables| && tables[i].name == t && Assembled(entries)[t] == entries[i];
      assert tables[i] in tables;
    }
  }


  /** When every metadata column has a name, the two merge orders give the same columns. */
  lemma {:induction false} MergeOrdersAgree(cols: seq<ColumnDoc>, metas: seq<MetaColumn>)
    requires FirstMalformed(metas) == |metas|
    ensures MergedColumnOuter(cols, metas) == DbManager.MergedMetaOuter(cols, metas)
  {
    assert metas[..|metas|] == metas;
  }

  /**
   * With a metadata column without `name`, the orders part ways: here only
   * the first column keeps the earlier descriptions, while the metadata-first
   * merge gives them to every column.
   */
  lemma {:induction false} MalformedKeepsFirstColumn(cols: seq<ColumnDoc>, before: seq<MetaColumn>, bad: MetaColumn, after: seq<MetaColumn>)
    requires |cols| >= 1 && FirstMalformed(before) == |before| && bad.name.None?
    ensures MergedColumnOuter(cols, before + [bad] + after)[0] == Described(cols[0], before)
    ensures forall i :: 1 <= i < |cols| ==> MergedColumnOuter(cols, before + [bad] + after)[i] == cols[i]
  {
    DbManager.FirstMalformedAt(before, bad, after);
    assert (before + [bad] + after)[..|before|] == before;
  }

  /**
   * Each sample row pairs the PRAGMA column names with the row's values by
   * position; a row shorter or longer than the column list is cut to the shorter.
   */
  lemma {:induction false} SampleRowsShape(src: TableSource, r: int)
    requires 0 <= r < |src.rows|
    ensures forall k :: k in SampleEntry(src).sampleData[r] <==>
      exists i :: 0 <= i < Min(|src.pragma|, |src.rows[r]|) && src.pragma[i].name == k
  {
    ZipRecordSpec(NamesOf(src.pragma), src.rows[r]);
    var names := NamesOf(src.pragma);
    assert forall i :: 0 <= i < |names| ==> names[i] == src.pragma[i].name;
  }
}
