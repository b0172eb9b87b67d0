/**
 * The stateful side of MCPValidator and the prompt-context memory.
 *
 * The validator holds the schema document in memory together with the
 * modification time of the schema file when it was last read. Reading the
 * file, asking the file system for its modification time and asking the
 * database for its tables are not modelled as effects: their answers are
 * parameters. Every rewrite of the schema file is recorded in `written`, the
 * sequence of documents written so far.
 */
module Mcp {
  import opened Wrappers
  import opened Text
  import opened Guardrail

  /** `_load_schema`: the parsed file, or the empty document when the file does not exist. */
  function LoadSchema(file: Option<Schema>): (r: Schema)
    ensures file.None? ==> r == map[]
    ensures file.Some? ==> r == file.value
  {
    match file
    case None => map[]
    case Some(doc) => doc
  }

  /** The schema with every table the database does not list dropped. */
  function Reconciled(schema: Schema, dbTables: seq<string>): (r: Schema)
    ensures forall t :: t in r ==> t in dbTables
    ensures forall t :: t in r ==> t in schema && r[t] == schema[t]
    ensures forall t :: t in schema && t in dbTables ==> t in r
  {
    map t | t in schema && t in dbTables :: schema[t]
  }

  /** Some key of the schema is missing from the database: reconciliation changes the document. */
  predicate HasStaleTable(schema: Schema, dbTables: seq<string>) {
    exists t :: t in schema && t !in dbTables
  }

  /** Reconciling twice is reconciling once. */
  lemma {:induction false} ReconcileIdempotent(schema: Schema, dbTables: seq<string>)
    ensures Reconciled(Reconciled(schema, dbTables), dbTables) == Reconciled(schema, dbTables)
    ensures !HasStaleTable(Reconciled(schema, dbTables), dbTables)
  {
  }

  /** Reconciliation leaves the document as it was exactly when no key is stale. */
  lemma {:induction false} ReconcileUnchanged(schema: Schema, dbTables: seq<string>)
    ensures Reconciled(schema, dbTables) == schema <==> !HasStaleTable(schema, dbTables)
  {
    if HasStaleTable(schema, dbTables) {
      var t :| t in schema && t !in dbTables;
      assert t !in Reconciled(schema, dbTables);
    }
  }

  class Validator {
    /** Which revision of `validate_sql_query` this validator runs. */
    const revision: Revision
    var schema: Schema
    var lastSchemaUpdate: real
    /** The documents written to the schema file, oldest first. */
    var written: seq<Schema>

    /**
     * `__init__`: load the file, reconcile it with the database's tables
     * (`None` when the database could not be queried), then remember the
     * file's modification time as read after that.
     */
    constructor(rev: Revision, file: Option<Schema>, dbTables: Option<seq<string>>, mtime: real)
      ensures revision == rev && lastSchemaUpdate == mtime
      ensures dbTables.None? ==> schema == LoadSchema(file) && written == []
      ensures dbTables.Some? ==> schema == Reconciled(LoadSchema(file), dbTables.value)
      ensures dbTables.Some? ==>
        written == if HasStaleTable(LoadSchema(file), dbTables.value) then [schema] else []
    {
      revision := rev;
      schema := LoadSchema(file);
      written := [];
      lastSchemaUpdate := 0.0;
      new;
      if dbTables.Some? {
        ValidateSchemaWithDb(dbTables.value);
      }
      lastSchemaUpdate := mtime;
    }

    /**
     * `_validate_schema_with_db`: delete every key the database does not
     * list, one at a time, and rewrite the file once if anything was deleted.
     */
    method ValidateSchemaWithDb(dbTables: seq<string>)
      modifies this
      ensures schema == Reconciled(old(schema), dbTables)
      ensures written == old(written) + if HasStaleTable(old(schema), dbTables) then [schema] else []
      ensures lastSchemaUpdate == old(lastSchemaUpdate)
    {
      var keys := schema.Keys;
      var schemaChanged := false;
      while keys != {}
        invariant keys <= old(schema).Keys
        invariant schema.Keys <= old(schema).Keys
        invariant forall t :: t in keys ==> t in schema
        invariant forall t :: t in schema ==> schema[t] == old(schema)[t]
        invariant forall t :: t in old(schema) && t !in keys ==> (t in schema <==> t in dbTables)
        invariant schemaChanged <==> exists t :: t in old(schema) && t !in keys && t !in dbTables
        invariant written == old(written) && lastSchemaUpdate == old(lastSchemaUpdate)
        decreases keys
      {
        var table :| table in keys;
        if table !in dbTables {
          schema := map t | t in schema && t != table :: schema[t];
          schemaChanged := true;
        }
        keys := keys - {table};
      }
      assert schema == Reconciled(old(schema), dbTables);
      if schemaChanged {
        written := written + [schema];
      }
    }

    /**
     * `_check_schema_update`: reload exactly when the file is newer than
     * the last load; the remembered time never goes back.
     */
    method CheckSchemaUpdate(currentMtime: real, file: Option<Schema>) returns (updated: bool)
      modifies this
      ensures updated <==> currentMtime > old(lastSchemaUpdate)
      ensures updated ==> lastSchemaUpdate == currentMtime && schema == LoadSchema(file)
      ensures !updated ==> lastSchemaUpdate == old(lastSchemaUpdate) && schema == old(schema)
      ensures lastSchemaUpdate >= old(lastSchemaUpdate)
      ensures written == old(written)
    {
      if currentMtime > lastSchemaUpdate {
        lastSchemaUpdate := currentMtime;
        schema := LoadSchema(file);
        return true;
      }
      return false;
    }

    /** `validate_sql_query`: refresh the schema if the file changed, then check against it. */
    method ValidateSqlQuery(query: string, currentMtime: real, file: Option<Schema>) returns (ok: bool)
      modifies this
      ensures ok == QueryAccepted(revision, schema, query)
      ensures currentMtime > old(lastSchemaUpdate) ==> lastSchemaUpdate == currentMtime && schema == LoadSchema(file)
      ensures currentMtime <= old(lastSchemaUpdate) ==> lastSchemaUpdate == old(lastSchemaUpdate) && schema == old(schema)
      ensures written == old(written)
    {
      var _ := CheckSchemaUpdate(currentMtime, file);
      ok := ValidateQuery(revision, schema, query);
    }

    /** `validate_response`: refresh the schema if the file changed, then check the text. */
    method ValidateResponse(response: string, currentMtime: real, file: Option<Schema>) returns (ok: bool)
      modifies this
      ensures ok == ResponseAccepted(response)
      ensures currentMtime > old(lastSchemaUpdate) ==> lastSchemaUpdate == currentMtime && schema == LoadSchema(file)
      ensures currentMtime <= old(lastSchemaUpdate) ==> lastSchemaUpdate == old(lastSchemaUpdate) && schema == old(schema)
      ensures written == old(written)
    {
      var _ := CheckSchemaUpdate(currentMtime, file);
      ok := Guardrail.ValidateResponse(response);
    }

    /** `update_schema`: set one table's entry and rewrite the file. */
    method UpdateSchema(tableName: string, columns: Columns)
      modifies this
      ensures schema == old(schema)[tableName := columns]
      ensures forall t :: t in old(schema) && t != tableName ==> t in schema && schema[t] == old(schema)[t]
      ensures written == old(written) + [schema]
      ensures lastSchemaUpdate == old(lastSchemaUpdate)
    {
      schema := schema[tableName := columns];
      written := written + [schema];
    }

    /** `get_table_info`: refresh, then the table's entry if there is one. */
    method GetTableInfo(tableName: string, currentMtime: real, file: Option<Schema>) returns (info: Option<Columns>)
      modifies this
      ensures info.Some? <==> tableName in schema
      ensures info.Some? ==> info.value == schema[tableName]
      ensures currentMtime > old(lastSchemaUpdate) ==> lastSchemaUpdate == currentMtime && schema == LoadSchema(file)
      ensures currentMtime <= old(lastSchemaUpdate) ==> lastSchemaUpdate == old(lastSchemaUpdate) && schema == old(schema)
      ensures written == old(written)
    {
      var _ := CheckSchemaUpdate(currentMtime, file);
      info := if tableName in schema then Some(schema[tableName]) else None;
    }

    /** `list_tables`: refresh, then every key of the schema once. */
    method ListTables(currentMtime: real, file: Option<Schema>) returns (tables: seq<string>)
      modifies this
      ensures forall t :: t in tables <==> t in schema
      ensures |tables| == |schema.Keys|
      ensures currentMtime > old(lastSchemaUpdate) ==> lastSchemaUpdate == currentMtime && schema == LoadSchema(file)
      ensures currentMtime <= old(lastSchemaUpdate) ==> lastSchemaUpdate == old(lastSchemaUpdate) && schema == old(schema)
      ensures written == old(written)
    {
      var _ := CheckSchemaUpdate(currentMtime, file);
      tables := KeyList(schema.Keys);
    }

    /** `remove_table`: drop the key and rewrite the file, or do nothing when it is absent. */
    method RemoveTable(tableName: string)
      modifies this
      ensures tableName !in schema
      ensures forall t :: t != tableName ==> (t in schema <==> t in old(schema))
      ensures forall t :: t in schema ==> schema[t] == old(schema)[t]
      ensures tableName in old(schema) ==> written == old(written) + [schema]
      ensures tableName !in old(schema) ==> schema == old(schema) && written == old(written)
      ensures lastSchemaUpdate == old(lastSchemaUpdate)
    {
      if tableName in schema {
        schema := map t | t in schema && t != tableName :: schema[t];
        written := written + [schema];
      }
    }
  }

  /** The keys of a map as a list without repetitions (in no particular order). */
  method KeyList(keys: set<string>) returns (r: seq<string>)
    ensures forall t :: t in r <==> t in keys
    ensures |r| == |keys|
  {
    r := [];
    var rest := keys;
    while rest != {}
      invariant rest <= keys
      invariant forall t :: t in r <==> t in keys && t !in rest
      invariant |r| + |rest| == |keys|
      decreases rest
    {
      var t :| t in rest;
      r := r + [t];
      rest := rest - {t};
    }
  }

  // ---------------------------------------------------------------------
  // Prompt-context memory
  // ---------------------------------------------------------------------

  /** One remembered exchange: when it happened, what the user asked and what the model answered. */
  datatype Exchange = Exchange(timestamp: string, user: string, llm: string)

  /** `memory[-n:]` */
  function Recent(memory: seq<Exchange>, n: int): (r: seq<Exchange>)
    ensures n == 0 ==> r == memory
    ensures 1 <= n <= |memory| ==> r == memory[|memory| - n..]
    ensures n > |memory| ==> r == memory
    ensures n < 0 ==> r == memory[if -n <= |memory| then -n else |memory|..]
  {
    SliceFrom(memory, -n)
  }

  /**
   * The newest exchange closes every non-empty window, after the ones before
   * it. Not for `n == 1`: the window of one is just the newest exchange, while
   * `memory[-0:]` is the whole memory.
   */
  lemma {:induction false} RecentAfterAdd(memory: seq<Exchange>, e: Exchange, n: int)
    requires n >= 2
    ensures Recent(memory + [e], n) == Recent(memory, n - 1) + [e]
    ensures Recent(memory + [e], 1) == [e]
  {
    var m := memory + [e];
    if n <= |memory| {
      assert m[|m| - n..] == memory[|memory| - (n - 1)..] + [e];
    } else {
      assert memory[0..] == memory && m[0..] == m;
      assert Recent(memory, n - 1) == memory;
      assert Recent(m, n) == m;
    }
  }

  /** A window never holds more than `n` exchanges, nor more than there are. */
  lemma {:induction false} RecentSize(memory: seq<Exchange>, n: int)
    requires n >= 1
    ensures |Recent(memory, n)| == if n <= |memory| then n else |memory|
  {
    if n <= |memory| {
      assert |memory[|memory| - n..]| == n;
    }
  }

  class PromptContextManager {
    var memory: seq<Exchange>

    constructor()
      ensures memory == []
    {
      memory := [];
    }

    /** `add`: one new exchange at the end, stamped with the given time. */
    method Add(userPrompt: string, llmResponse: string, timestamp: string)
      modifies this
      ensures memory == old(memory) + [Exchange(timestamp, userPrompt, llmResponse)]
    {
      memory := memory + [Exchange(timestamp, userPrompt, llmResponse)];
    }

    /** `get_recent_context`: the newest exchanges, a suffix of the memory. */
    function GetRecentContext(n: int): (r: seq<Exchange>)
      reads this
      ensures |r| <= |memory| && r == memory[|memory| - |r|..]
      ensures n >= 1 ==> |r| == if n <= |memory| then n else |memory|
    {
      if n >= 1 then RecentSize(memory, n); Recent(memory, n) else Recent(memory, n)
    }

    /** `clear_memory` */
    method ClearMemory()
      modifies this
      ensures memory == []
    {
      memory := [];
    }
  }
}
