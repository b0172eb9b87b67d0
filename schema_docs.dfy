/**
 * The schema document that db_manager.py and create_sample_tables.py write
 * to `schema.json`: one entry per user table of the database, holding the
 * table's name, its columns in PRAGMA order (with descriptions merged in from
 * the table's metadata document) and a few sample rows.
 *
 * What the database and the metadata directory answer is input here: each
 * table arrives as a `TableSource`, in the order `sqlite_master` lists it.
 */
module SchemaDocs {
  import opened Wrappers
  import opened Text

  /** One row of `PRAGMA table_info(t)`: position, name and declared type of a column. */
  datatype PragmaRow = PragmaRow(cid: int, name: string, declType: string)

  /** A column of the document: `{"name": ..., "type": ...}` and, once merged, `"description"`. */
  datatype ColumnDoc = ColumnDoc(name: string, declType: string, description: Option<string>)

  /**
   * One element of a metadata document's `columns` list. A missing `"name"`
   * key is `None`: reading it raises `KeyError`.
   */
  datatype MetaColumn = MetaColumn(name: Option<string>, description: Option<string>)

  /** A metadata document: its `columns` list, `None` when the key is absent. */
  datatype Metadata = Metadata(columns: Option<seq<MetaColumn>>)

  /** A JSON file on disk: absent, present but unreadable, or parsed. */
  datatype FileState<+T> = Missing | Corrupt | Parsed(content: T)

  /** A sample row as a dictionary from column name to the value's text. */
  type Record = map<string, string>

  datatype TableEntry = TableEntry(tableName: string, columns: seq<ColumnDoc>, sampleData: seq<Record>)

  /** The whole document: table name to entry. */
  type Document = map<string, TableEntry>

  /**
   * What the database and the metadata directory say about one table:
   * its name, its PRAGMA rows, its first rows (`records` as pandas turns
   * them into dictionaries, `None` when that read fails; `rows` as the
   * cursor returns them), and the files `<table>_metadata.json` and
   * `<table>.json`.
   */
  datatype TableSource = TableSource(
    name: string,
    pragma: seq<PragmaRow>,
    records: Option<seq<Record>>,
    rows: seq<seq<string>>,
    primary: FileState<Metadata>,
    alternative: FileState<Metadata>)

  // ---------------------------------------------------------------------
  // Which tables are listed
  // ---------------------------------------------------------------------

  /**
   * `name LIKE 'sqlite_%'` in SQLite: `_` stands for any one character,
   * `%` for any run of characters, and letters match without regard to
   * ASCII case.
   */
  predicate LikeSqlitePattern(name: string) {
    |name| >= 7 && Lower(name[..6]) == "sqlite"
  }

  /** The tables a `... AND name NOT LIKE 'sqlite_%'` listing keeps, in order. */
  function UserTables(db: seq<TableSource>): (r: seq<TableSource>)
    ensures forall src :: src in r <==> src in db && !LikeSqlitePattern(src.name)
    ensures |r| <= |db|
    decreases |db|
  {
    if db == [] then []
    else
      var init := UserTables(db[..|db| - 1]);
      var last := db[|db| - 1];
      assert db == db[..|db| - 1] + [last];
      if LikeSqlitePattern(last.name) then init else init + [last]
  }

  /** The positions in `db` of the tables the listing keeps, in increasing order, and every such position. */
  function UserPositions(db: seq<TableSource>): (r: seq<nat>)
    ensures forall k :: 0 <= k < |r| ==> r[k] < |db| && !LikeSqlitePattern(db[r[k]].name)
    ensures forall j, k :: 0 <= j < k < |r| ==> r[j] < r[k]
    ensures forall i :: 0 <= i < |db| && !LikeSqlitePattern(db[i].name) ==> i in r
    decreases |db|
  {
    if db == [] then []
    else
      var init := UserPositions(db[..|db| - 1]);
      if LikeSqlitePattern(db[|db| - 1].name) then init else init + [|db| - 1]
  }

  /** The listing is `db` filtered in place: its k-th table is the one at the k-th kept position. */
  lemma {:induction false} UserTablesInOrder(db: seq<TableSource>)
    ensures |UserTables(db)| == |UserPositions(db)|
    ensures forall k :: 0 <= k < |UserPositions(db)| ==> UserTables(db)[k] == db[UserPositions(db)[k]]
    decreases |db|
  {
    if db != [] {
      var init, last := db[..|db| - 1], db[|db| - 1];
      UserTablesInOrder(init);
      var ps, ts := UserPositions(init), UserTables(init);
      if LikeSqlitePattern(last.name) {
        assert UserPositions(db) == ps && UserTables(db) == ts;
        forall k | 0 <= k < |ps| ensures ts[k] == db[ps[k]] {
          assert ps[k] < |init|;
        }
      } else {
        assert UserPositions(db) == ps + [|db| - 1] && UserTables(db) == ts + [last];
        forall k | 0 <= k < |ps| + 1 ensures (ts + [last])[k] == db[(ps + [|db| - 1])[k]] {
          if k < |ps| {
            assert ps[k] < |init|;
          }
        }
      }
    }
  }

  /** SQLite's own tables (`sqlite_sequence`, `sqlite_stat1`, ...) are never listed. */
  lemma {:induction false} InternalTablesSkipped(name: string)
    requires StartsWith(name, "sqlite_")
    ensures LikeSqlitePattern(name)
  {
    assert name[..6] == "sqlite_"[..6];
  }

  /**
   * The pattern reaches further than the `sqlite_` prefix: any seventh
   * character matches `_`, and the case of the first six letters is ignored.
   */
  lemma {:induction false} WildcardAlsoSkips(c: char, rest: string)
    ensures LikeSqlitePattern("sqlite" + [c] + rest)
    ensures LikeSqlitePattern("SQLite" + [c] + rest)
  {
    assert ("sqlite" + [c] + rest)[..6] == "sqlite";
    assert ("SQLite" + [c] + rest)[..6] == "SQLite";
    assert Lower("SQLite") == "sqlite";
  }

  // ---------------------------------------------------------------------
  // Columns and description merge
  // ---------------------------------------------------------------------

  /** One `{name, type}` column per PRAGMA row, in the same order, without description. */
  function ColumnsOf(pragma: seq<PragmaRow>): (cols: seq<ColumnDoc>)
    ensures |cols| == |pragma|
  {
    seq(|pragma|, i requires 0 <= i < |pragma| => ColumnDoc(pragma[i].name, pragma[i].declType, None))
  }

  /** `[col[1] for col in PRAGMA rows]` */
  function NamesOf(pragma: seq<PragmaRow>): (names: seq<string>)
    ensures |names| == |pragma|
  {
    seq(|pragma|, i requires 0 <= i < |pragma| => pragma[i].name)
  }

  /** The metadata column carries a description for the column `name`. */
  predicate Describes(m: MetaColumn, name: string) {
    m.name == Some(name) && m.description.Some?
  }

  /** The description of the last metadata column that describes `name`. */
  function LastDescription(metas: seq<MetaColumn>, name: string): Option<string>
    decreases |metas|
  {
    if metas == [] then None
    else if Describes(metas[|metas| - 1], name) then metas[|metas| - 1].description
    else LastDescription(metas[..|metas| - 1], name)
  }

  /** A column with the last matching description set, unchanged when nothing matches. */
  function Described(col: ColumnDoc, metas: seq<MetaColumn>): (r: ColumnDoc)
    ensures r.name == col.name && r.declType == col.declType
  {
    match LastDescription(metas, col.name)
    case None => col
    case Some(d) => col.(description := Some(d))
  }

  /** Every column merged with the whole list. */
  function MapDescribed(cols: seq<ColumnDoc>, metas: seq<MetaColumn>): (r: seq<ColumnDoc>)
    ensures |r| == |cols|
  {
    seq(|cols|, i requires 0 <= i < |cols| => Described(cols[i], metas))
  }

  /** The position of the first metadata column without a `name`, or the length of the list. */
  function FirstMalformed(metas: seq<MetaColumn>): (k: nat)
    ensures k <= |metas|
    ensures forall i :: 0 <= i < k ==> metas[i].name.Some?
    ensures k < |metas| ==> metas[k].name.None?
    decreases |metas|
  {
    if metas == [] || metas[0].name.None? then 0 else 1 + FirstMalformed(metas[1..])
  }

  /**
   * A description is found exactly when some metadata column describes the
   * name, and it is the description of the last one that does.
   */
  lemma {:induction false} LastDescriptionSpec(metas: seq<MetaColumn>, name: string)
    ensures LastDescription(metas, name).Some? <==> exists i :: 0 <= i < |metas| && Describes(metas[i], name)
    ensures LastDescription(metas, name).Some? ==>
      exists i :: 0 <= i < |metas| && Describes(metas[i], name) && metas[i].description == LastDescription(metas, name)
        && forall j :: i < j < |metas| ==> !Describes(metas[j], name)
    decreases |metas|
  {
    if metas != [] {
      var init := metas[..|metas| - 1];
      LastDescriptionSpec(init, name);
      assert forall i :: 0 <= i < |init| ==> init[i] == metas[i];
      if !Describes(metas[|metas| - 1], name) && LastDescription(init, name).Some? {
        var i :| 0 <= i < |init| && Describes(init[i], name) && init[i].description == LastDescription(init, name)
          && forall j :: i < j < |init| ==> !Describes(init[j], name);
        assert forall j :: i < j < |metas| ==> !Describes(metas[j], name);
      }
    }
  }

  /** Looking one metadata column further: it wins if it describes the name. */
  lemma {:induction false} DescribedStep(col: ColumnDoc, metas: seq<MetaColumn>, m: nat)
    requires m < |metas|
    ensures Described(col, metas[..m + 1]) ==
      if Describes(metas[m], col.name) then col.(description := metas[m].description)
      else Described(col, metas[..m])
  {
    assert metas[..m + 1][..m] == metas[..m];
  }

  /**
   * The merge keeps every column's name and type and the number of columns,
   * and a column without a description gains one exactly when some metadata
   * column with its name carries one: the last such.
   */
  lemma {:induction false} MergeSpec(cols: seq<ColumnDoc>, metas: seq<MetaColumn>, i: int)
    requires 0 <= i < |cols| && cols[i].description.None?
    ensures |MapDescribed(cols, metas)| == |cols|
    ensures MapDescribed(cols, metas)[i].name == cols[i].name
    ensures MapDescribed(cols, metas)[i].declType == cols[i].declType
    ensures MapDescribed(cols, metas)[i].description.Some? <==>
      exists j :: 0 <= j < |metas| && Describes(metas[j], cols[i].name)
    ensures MapDescribed(cols, metas)[i].description.Some? ==>
      exists j :: 0 <= j < |metas| && Describes(metas[j], cols[i].name)
        && metas[j].description == MapDescribed(cols, metas)[i].description
        && forall k :: j < k < |metas| ==> !Describes(metas[k], cols[i].name)
  {
    LastDescriptionSpec(metas, cols[i].name);
  }

  /** The columns to merge from a metadata file: none unless it parsed and has a `columns` list. */
  function MetaColumns(file: FileState<Metadata>): (metas: seq<MetaColumn>)
    ensures !(file.Parsed? && file.content.columns.Some?) ==> metas == []
  {
    match file
    case Parsed(Metadata(Some(metas))) => metas
    case _ => []
  }

  /** Merging with no metadata columns changes nothing. */
  lemma {:induction false} MergeNothing(cols: seq<ColumnDoc>)
    ensures MapDescribed(cols, []) == cols
  {
  }

  // ---------------------------------------------------------------------
  // The document
  // ---------------------------------------------------------------------

  /** `schema[entry.table_name] = entry` for each entry in turn. */
  function Assembled(entries: seq<TableEntry>): Document
    decreases |entries|
  {
    if entries == [] then map[]
    else Assembled(entries[..|entries| - 1])[entries[|entries| - 1].tableName := entries[|entries| - 1]]
  }

  /**
   * The document has one key per entry's table name and nothing else, and
   * every entry sits under its own `table_name`.
   */
  lemma {:induction false} AssembledKeys(entries: seq<TableEntry>)
    ensures forall t :: t in Assembled(entries) <==> exists i :: 0 <= i < |entries| && entries[i].tableName == t
    ensures forall t :: t in Assembled(entries) ==> Assembled(entries)[t].tableName == t
    ensures forall t :: t in Assembled(entries) ==> Assembled(entries)[t] in entries
    decreases |entries|
  {
    if entries != [] {
      var init := entries[..|entries| - 1];
      AssembledKeys(init);
      assert forall i :: 0 <= i < |init| ==> init[i] == entries[i];
      assert forall e :: e in init ==> e in entries;
    }
  }

  /**
   * Entries built one per table, each carrying its table's name: every table
   * has a key, and every key holds the entry of some table with that name.
   */
  lemma {:induction false} AssembledFrom(tables: seq<TableSource>, entries: seq<TableEntry>)
    requires |entries| == |tables|
    requires forall i :: 0 <= i < |tables| ==> entries[i].tableName == tables[i].name
    ensures forall t :: t in Assembled(entries) ==> Assembled(entries)[t].tableName == t
    ensures forall i :: 0 <= i < |tables| ==> tables[i].name in Assembled(entries)
    ensures forall t :: t in Assembled(entries) ==>
      exists i :: 0 <= i < |tables| && tables[i].name == t && Assembled(entries)[t] == entries[i]
  {
    AssembledKeys(entries);
    forall i | 0 <= i < |tables| ensures tables[i].name in Assembled(entries) {
      assert entries[i].tableName == tables[i].name;
    }
    forall t | t in Assembled(entries)
      ensures exists i :: 0 <= i < |tables| && tables[i].name == t && Assembled(entries)[t] == entries[i]
    {
      var i :| 0 <= i < |entries| && entries[i] == Assembled(entries)[t];
      assert tables[i].name == t;
    }
  }

  /** With distinct table names, each entry is found under its own name. */
  lemma {:induction false} AssembledLookup(entries: seq<TableEntry>, i: int)
    requires 0 <= i < |entries|
    requires forall j :: 0 <= j < |entries| && j != i ==> entries[j].tableName != entries[i].tableName
    ensures entries[i].tableName in Assembled(entries)
    ensures Assembled(entries)[entries[i].tableName] == entries[i]
    decreases |entries|
  {
    var init := entries[..|entries| - 1];
    if i < |entries| - 1 {
      AssembledLookup(init, i);
    }
  }
}
