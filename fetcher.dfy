/**
 * Fetcher of src/SqliteFetcher.cpp as the object it is: the fields exec,
 * getTableInfo, fetchColumn, execSeparate and genQueryCreate update in
 * place, each method proved to reach the state and outcome the functions
 * of module Session give.
 */
module FetcherObj {
  import opened Wrappers
  import opened Strings
  import opened OrderedMap
  import opened Values
  import opened Defaults
  import opened Generate
  import opened Select
  import opened Session

  class Fetcher {
    const engine: Engine
    const dialect: Dialect
    var executed: seq<string>
    var lastResult: ExecResult
    var tableInfo: TableInfo
    var dirty: bool
    var lastErr: string

    function Snapshot(): State
      reads this
    {
      State(executed, lastResult, tableInfo, dirty, lastErr)
    }

    predicate Valid()
      reads this
    {
      Good(Snapshot())
    }

    /** Fetcher(): nothing sent yet, no cached schema, flag clear. */
    constructor (engine: Engine, dialect: Dialect)
      ensures Valid() && this.engine == engine && this.dialect == dialect
      ensures Snapshot() == State([], ExecResult("", []), [], false, "")
    {
      this.engine := engine;
      this.dialect := dialect;
      executed := [];
      lastResult := ExecResult("", []);
      tableInfo := [];
      dirty := false;
      lastErr := "";
    }

    /** Fetcher(db) / open(db), the opening itself given as its outcome. */
    method Open(failure: Option<string>) returns (r: Result<bool>)
      requires Valid()
      modifies this
      ensures Valid()
      ensures (Snapshot(), r) == Session.Open(engine, dialect, old(Snapshot()), failure)
    {
      if failure.Some? {
        lastErr := failure.value;
        return Ok(false);
      }
      var x := GetTableInfo();
      if x.Err? {
        return Err(x.error);
      }
      tableInfo := x.value.0;
      lastErr := x.value.1;
      return Ok(true);
    }

    /** exec(query): the statement's result and error text; a set flag is
        cleared and the schema cache refreshed. */
    method Exec(q: string) returns (r: Result<(ExecResult, string)>)
      requires Valid()
      modifies this
      ensures Valid()
      ensures (Snapshot(), r) == Session.Exec(engine, dialect, old(Snapshot()), q)
      decreases if dirty then 1 else 0, 0, 0
    {
      var reply := engine(executed, q);
      executed := executed + [q];
      lastResult := ExecResult(q, reply.rows);
      var err := if reply.error.Some? then reply.error.value else "";
      var own := lastResult;
      if dirty {
        dirty := false;
        var info := GetTableInfo();
        if info.Err? {
          return Err(info.error);
        }
        tableInfo := info.value.0;
        lastErr := info.value.1;
      }
      return Ok((own, err));
    }

    /** getTableInfo(err): the catalog, then each table's columns. */
    method GetTableInfo() returns (r: Result<(TableInfo, string)>)
      requires Valid()
      modifies this
      ensures Valid()
      ensures (Snapshot(), r) == Session.GetTableInfo(engine, dialect, old(Snapshot()))
      decreases if dirty then 1 else 0, 2, 0
    {
      var x := Exec(MasterQuery);
      if x.Err? {
        return Err(x.error);
      }
      if x.value.1 != "" {
        return Ok(([], x.value.1));
      }
      r := ScanTables(x.value.0.rows);
    }

    /** The loop of getTableInfo(err) over the catalog rows: the columns of
        each row of type "table", stopping at the first failure. */
    method ScanTables(rows: seq<Row>) returns (r: Result<(TableInfo, string)>)
      requires Valid() && !dirty
      modifies this
      ensures Valid()
      ensures (Snapshot(), r) == Tables(engine, dialect, old(Snapshot()), rows, [])
      decreases 0, 1, 0
    {
      var info: TableInfo := [];
      var k := 0;
      while k < |rows|
        invariant 0 <= k <= |rows|
        invariant Valid() && !dirty && InfoValid(info)
        invariant Tables(engine, dialect, Snapshot(), rows[k..], info) == Tables(engine, dialect, old(Snapshot()), rows, [])
      {
        ghost var rest := rows[k..];
        assert rest[0] == rows[k] && rest[1..] == rows[k + 1..];
        TablesStep(engine, dialect, Snapshot(), rest, info);
        var kind := Field(rows[k], "type");
        if kind.Err? {
          return Err(kind.error);
        }
        if kind.value == "table" {
          var name := Field(rows[k], "name");
          if name.Err? {
            return Err(name.error);
          }
          var c := ColumnsOf(name.value);
          if c.Err? {
            return Err(c.error);
          }
          if c.value.1 != "" {
            return Ok((info, c.value.1));
          }
          PutInfoValid(info, name.value, c.value.0);
          info := Put(info, name.value, c.value.0);
        }
        k := k + 1;
      }
      return Ok((info, ""));
    }

    /** getTableInfo(table, err): PRAGMA table_info, then its rows. */
    method ColumnsOf(table: string) returns (r: Result<(Column, string)>)
      requires Valid()
      modifies this
      ensures Valid()
      ensures (Snapshot(), r) == Session.Columns(engine, dialect, old(Snapshot()), table)
      decreases if dirty then 1 else 0, 0, 1
    {
      var x := Exec(PragmaQuery(table));
      if x.Err? {
        return Err(x.error);
      }
      if x.value.1 != "" {
        return Ok(([], x.value.1));
      }
      var c := ColumnsFromRows(dialect, x.value.0.rows);
      if c.Err? {
        return Err(c.error);
      }
      return Ok((c.value, ""));
    }

    /** The loop over the PRAGMA rows: flags from pk and notnull, the
        parsing constructor when dflt_value is non-empty. */
    static method ColumnsFromRows(dl: Dialect, rows: seq<Row>) returns (r: Result<Column>)
      ensures r == TableColumns(dl, rows, [])
    {
      var col: Column := [];
      var k := 0;
      while k < |rows|
        invariant 0 <= k <= |rows| && ColumnValid(col)
        invariant TableColumns(dl, rows[k..], col) == TableColumns(dl, rows, [])
      {
        assert rows[k..][0] == rows[k] && rows[k..][1..] == rows[k + 1..];
        var row := rows[k];
        var dflt := Field(row, "dflt_value");
        if dflt.Err? {
          return Err(dflt.error);
        }
        var hasDefault := dflt.value != "";
        var pk := Field(row, "pk");
        if pk.Err? {
          return Err(pk.error);
        }
        var notNull := Field(row, "notnull");
        if notNull.Err? {
          return Err(notNull.error);
        }
        var flags := Flags(pk.value == "1", false, false, notNull.value == "1", false);
        var declared := Field(row, "type");
        if declared.Err? {
          return Err(declared.error);
        }
        var d: DataValue;
        if hasDefault {
          var parsed := FromText(dl, dflt.value, declared.value, flags);
          if parsed.Err? {
            return Err(parsed.error);
          }
          d := parsed.value;
        } else {
          d := FromDeclared(dl, declared.value, flags);
        }
        var name := Field(row, "name");
        if name.Err? {
          return Err(name.error);
        }
        PutValid(col, name.value, d);
        col := Put(col, name.value, d);
        k := k + 1;
      }
      return Ok(col);
    }

    /** fetchColumn(query). */
    method FetchColumn(query: string) returns (r: Result<ColumnList>)
      requires Valid()
      modifies this
      ensures Valid()
      ensures (Snapshot(), r) == Session.FetchColumn(engine, dialect, old(Snapshot()), query)
    {
      var plan := RewriteQuery(query, tableInfo);
      if plan.Err? {
        return Err(plan.error);
      }
      RewriteShape(query, tableInfo);
      InfoLookupValid(tableInfo, plan.value.table);
      var wasDirty := dirty;
      var x := Exec(plan.value.text);
      if x.Err? {
        return Err(x.error);
      }
      if x.value.1 != "" {
        return Err(EngineError(x.value.1));
      }
      if wasDirty {
        r := DecodeDangling(x.value.0.rows);
        return;
      }
      r := DecodeAnswer(dialect, plan.value.schema, x.value.0.rows);
    }

    /** execSeparate(query): exec of each ';'-separated statement in turn,
        stopping at the first error. */
    method ExecSeparate(q: string) returns (r: Result<(seq<ExecResult>, string)>)
      requires Valid()
      modifies this
      ensures Valid()
      ensures (Snapshot(), r) == Session.ExecSeparate(engine, dialect, old(Snapshot()), q)
    {
      var list: seq<ExecResult> := [];
      var begin := 0;
      ghost var goal := RunStatements(engine, dialect, Snapshot(), Split(q), []);
      while begin < |q|
        invariant 0 <= begin <= |q| && Valid()
        invariant RunStatements(engine, dialect, Snapshot(), Split(q[begin..]), list) == goal
        decreases |q| - begin
      {
        var dlm := match Find(q[begin..], ';') case Some(i) => begin + i case None => |q|;
        SplitFront(q, begin, dlm);
        var x := Exec(q[begin..dlm]);
        if x.Err? {
          return Err(x.error);
        }
        if x.value.1 != "" {
          return Ok((list, x.value.1));
        }
        list := list + [x.value.0];
        begin := if dlm < |q| then dlm + 1 else |q|;
      }
      return Ok((list, ""));
    }

    /** genQueryCreate(TableInfo_t): the statements, and the flag set. */
    method GenQueryCreate(info: TableInfo) returns (s: string)
      requires Valid() && InfoValid(info)
      modifies this
      ensures Valid()
      ensures (Snapshot(), s) == Session.GenQueryCreate(dialect, old(Snapshot()), info)
    {
      s := CreateQuery(dialect, info);
      dirty := true;
    }

    /** genQueryCreate(Table_t): per table, genQueryCreate of its first row
        and genQueryInsert of all its rows. */
    method GenQueryCreateTable(table: Table) returns (r: Result<string>)
      requires Valid() && TableValid(table)
      modifies this
      ensures Valid()
      ensures (Snapshot(), r) == Session.GenQueryCreateTable(dialect, old(Snapshot()), table)
    {
      var ret := "";
      var t := 0;
      while t < |table|
        invariant 0 <= t <= |table| && Valid()
        invariant CreateTableText(dialect, table[..t]) == Ok(ret)
        invariant Snapshot() == old(Snapshot()).(dirty := old(dirty) || t > 0)
        invariant t > 0 ==> table[0].1 != []
      {
        var name := table[t].0;
        var rows := table[t].1;
        if rows == [] {
          ErrorStays(dialect, table, t + 1);
          return Err(Undefined("front() of an empty column list"));
        }
        assert ColumnValid(rows[0]) && RowsValid(rows);
        var create := GenQueryCreate([(name, rows[0])]);
        CreateSingle(dialect, name, rows[0]);
        var inserts := InsertListQuery(dialect, name, rows);
        CreateTableStep(dialect, table, t, ret);
        ret := ret + create + inserts;
        t := t + 1;
      }
      assert table[..t] == table;
      return Ok(ret);
    }

    /** genQueryCreate(name, ColumnList_t): the one-table case of the above. */
    method GenQueryCreateList(name: string, rows: ColumnList) returns (r: Result<string>)
      requires Valid() && RowsValid(rows)
      modifies this
      ensures Valid()
      ensures (Snapshot(), r) == Session.GenQueryCreateTable(dialect, old(Snapshot()), [(name, rows)])
    {
      r := GenQueryCreateTable([(name, rows)]);
    }

    /** genQueryCreate(name, Column_t): CREATE of the one-row table, then its INSERT. */
    method GenQueryCreateColumn(name: string, col: Column) returns (s: string)
      requires Valid() && ColumnValid(col)
      modifies this
      ensures Valid()
      ensures (Snapshot(), s) == Session.GenQueryCreateColumn(dialect, old(Snapshot()), name, col)
    {
      var create := GenQueryCreate([(name, col)]);
      var insert := InsertQuery(dialect, name, col);
      s := create + insert;
    }
  }
}
