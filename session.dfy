/**
 * The state machine of Fetcher in src/SqliteFetcher.cpp, on values: the
 * statements sent to the database, the last exec result, the cached
 * schema (last_table_info_) and the dirty flag (to_info_update_) that
 * makes the next exec refresh that cache from the catalog.
 *
 * The database is an oracle: the answer to a statement may depend on every
 * statement sent before it. Each function returns the state reached and
 * the outcome; Err stands for an exception the source lets escape (or for
 * undefined behaviour), with the state as it was when it was raised.
 */
module Session {
  import opened Wrappers
  import opened Strings
  import opened OrderedMap
  import opened Values
  import opened Defaults
  import opened Generate
  import opened Select

  /** ResultElement_t: column name to cell text ("" for NULL). */
  type Row = Assoc<string>

  /** ExecResult_t: the statement and the rows the callback collected. */
  datatype ExecResult = ExecResult(inSql: string, rows: seq<Row>)

  /** What sqlite3_exec reports for one statement: the rows passed to the
      callback and, on failure, the error text. */
  datatype Reply = Reply(rows: seq<Row>, error: Option<string>)

  /** The database: its reply to a statement, given all statements before it. */
  type Engine = (seq<string>, string) -> Reply

  datatype State = State(
    executed: seq<string>,   // every statement sent, in order
    lastResult: ExecResult,  // last_exec_result_
    tableInfo: TableInfo,    // last_table_info_
    dirty: bool,             // to_info_update_
    lastErr: string)         // last_err_

  predicate Good(st: State)
  {
    InfoValid(st.tableInfo)
  }

  const MasterQuery := "SELECT * FROM sqlite_master;"

  function PragmaQuery(table: string): string
  {
    "PRAGMA table_info(" + table + ");"
  }

  /** One sqlite3_exec call: the statement is sent, last_exec_result_ holds
      it and its rows, and the error text is returned ("" on success). */
  function Run(e: Engine, st: State, q: string): (State, string)
  {
    var reply := e(st.executed, q);
    (st.(executed := st.executed + [q], lastResult := ExecResult(q, reply.rows)),
     if reply.error.Some? then reply.error.value else "")
  }

  function Rank(st: State): nat
  {
    if st.dirty then 1 else 0
  }

  /** std::map::at: the value under key, or the out_of_range exception. */
  function Field(row: Row, key: string): Result<string>
  {
    match Lookup(row, key)
    case Some(v) => Ok(v)
    case None => Err(MissingField(key))
  }

  // ---------------------------------------------------------------
  // getTableInfo(table): one row of PRAGMA table_info as a schema entry

  /** pk "1" gives PRIMARY KEY, notnull "1" gives NOT NULL; a non-empty
      dflt_value is parsed as the column's value. DEFAULT is never set. */
  function ColumnEntry(dl: Dialect, row: Row): (r: Result<(string, DataValue)>)
    ensures r.Ok? ==> Valid(r.value.1) && !r.value.1.flags.hasDefault
  {
    match Field(row, "dflt_value")
    case Err(x) => Err(x)
    case Ok(dflt) =>
      match Field(row, "pk")
      case Err(x) => Err(x)
      case Ok(pk) =>
        match Field(row, "notnull")
        case Err(x) => Err(x)
        case Ok(notNull) =>
          var flags := Flags(pk == "1", false, false, notNull == "1", false);
          match Field(row, "type")
          case Err(x) => Err(x)
          case Ok(declared) =>
            var data := if dflt != "" then FromText(dl, dflt, declared, flags) else Ok(FromDeclared(dl, declared, flags));
            match data
            case Err(x) => Err(x)
            case Ok(d) =>
              match Field(row, "name")
              case Err(x) => Err(x)
              case Ok(name) => Ok((name, d))
  }

  /** A PRAGMA row with all five fields becomes a schema entry named by its
      "name" field: PRIMARY KEY exactly when pk is "1", NOT NULL exactly when
      notnull is "1", no other flag, and the tag and type text the declared
      type gives under those flags. Without a default nothing is stored and
      the entry always exists; a missing field is reported. */
  lemma ColumnEntryFields(dl: Dialect, row: Row)
    ensures var r := ColumnEntry(dl, row);
      r.Ok? ==>
        && Lookup(row, "name") == Some(r.value.0)
        && Lookup(row, "pk").Some? && Lookup(row, "notnull").Some?
        && Lookup(row, "type").Some? && Lookup(row, "dflt_value").Some?
        && r.value.1.flags == Flags(Lookup(row, "pk").value == "1", false, false, Lookup(row, "notnull").value == "1", false)
        && r.value.1.tag == FromDeclared(dl, Lookup(row, "type").value, r.value.1.flags).tag
        && r.value.1.typeText == FromDeclared(dl, Lookup(row, "type").value, r.value.1.flags).typeText
        && (Lookup(row, "dflt_value").value == "" ==> r.value.1.bytes == [])
    ensures (&& Lookup(row, "dflt_value") == Some("") && Lookup(row, "pk").Some?
             && Lookup(row, "notnull").Some? && Lookup(row, "type").Some? && Lookup(row, "name").Some?)
      ==> ColumnEntry(dl, row).Ok?
    ensures Lookup(row, "dflt_value").None? ==> ColumnEntry(dl, row) == Err(MissingField("dflt_value"))
    ensures Lookup(row, "name").None? ==> ColumnEntry(dl, row).Err?
  {
    var r := ColumnEntry(dl, row);
    if r.Ok? {
      var flags := r.value.1.flags;
      var declared := Lookup(row, "type").value;
      var dflt := Lookup(row, "dflt_value").value;
      if dflt != "" {
        var d := FromDeclared(dl, declared, flags);
        assert FromText(dl, dflt, declared, flags) == SetFromText(dl, d, d.tag, dflt);
      }
    }
  }

  /** The loop over the PRAGMA rows: `table_info[name] = Data(..)` per row. */
  function TableColumns(dl: Dialect, rows: seq<Row>, acc: Column): (r: Result<Column>)
    requires ColumnValid(acc)
    ensures r.Ok? ==> ColumnValid(r.value)
  {
    if rows == [] then Ok(acc)
    else
      match ColumnEntry(dl, rows[0])
      case Err(x) => Err(x)
      case Ok(entry) =>
        PutValid(acc, entry.0, entry.1);
        TableColumns(dl, rows[1..], Put(acc, entry.0, entry.1))
  }

  // ---------------------------------------------------------------
  // exec and the catalog refresh

  /** exec(query): the statement is run; if the dirty flag is set it is
      cleared and last_table_info_ is refreshed by getTableInfo. Returns the
      statement's own result and error text. */
  function Exec(e: Engine, dl: Dialect, st: State, q: string): (r: (State, Result<(ExecResult, string)>))
    requires Good(st)
    ensures Good(r.0) && !r.0.dirty
    ensures |r.0.executed| > |st.executed| && r.0.executed[..|st.executed| + 1] == st.executed + [q]
    ensures r.1.Ok? ==> r.1.value.0 == ExecResult(q, e(st.executed, q).rows)
    decreases Rank(st), 0, 0
  {
    var (st1, err) := Run(e, st, q);
    var own := st1.lastResult;
    if !st.dirty then (st1, Ok((own, err)))
    else
      var (st2, info) := GetTableInfo(e, dl, st1.(dirty := false));
      assert st2.executed[..|st.executed| + 1] == st.executed + [q] by {
        assert st2.executed[..|st1.executed|] == st1.executed;
      }
      match info
      case Err(x) => (st2, Err(x))
      case Ok((ti, lastErr)) => (st2.(tableInfo := ti, lastErr := lastErr), Ok((own, err)))
  }

  /** getTableInfo(err): the catalog query, then one PRAGMA table_info per
      row of type "table", stopping at the first failing one. */
  function GetTableInfo(e: Engine, dl: Dialect, st: State): (r: (State, Result<(TableInfo, string)>))
    requires Good(st)
    ensures Good(r.0) && !r.0.dirty
    ensures r.1.Ok? ==> InfoValid(r.1.value.0)
    ensures |r.0.executed| > |st.executed| && r.0.executed[..|st.executed|] == st.executed
    ensures r.0.executed[|st.executed|] == MasterQuery
    decreases Rank(st), 2, 0
  {
    var (st1, x) := Exec(e, dl, st, MasterQuery);
    assert st1.executed[|st.executed|] == MasterQuery by {
      assert st1.executed[..|st.executed| + 1][|st.executed|] == MasterQuery;
    }
    assert st1.executed[..|st.executed|] == st.executed by {
      assert st1.executed[..|st.executed|] == st1.executed[..|st.executed| + 1][..|st.executed|];
    }
    match x
    case Err(y) => (st1, Err(y))
    case Ok((res, err)) =>
      if err != "" then (st1, Ok(([], err)))
      else Tables(e, dl, st1, res.rows, [])
  }

  /** The loop over the catalog rows, with the schema built so far. */
  function Tables(e: Engine, dl: Dialect, st: State, rows: seq<Row>, acc: TableInfo): (r: (State, Result<(TableInfo, string)>))
    requires Good(st) && !st.dirty && InfoValid(acc)
    ensures Good(r.0) && !r.0.dirty
    ensures r.1.Ok? ==> InfoValid(r.1.value.0)
    ensures |r.0.executed| >= |st.executed| && r.0.executed[..|st.executed|] == st.executed
    decreases Rank(st), 1, |rows|
  {
    if rows == [] then (st, Ok((acc, "")))
    else
      match Field(rows[0], "type")
      case Err(x) => (st, Err(x))
      case Ok(kind) =>
        if kind != "table" then Tables(e, dl, st, rows[1..], acc)
        else
          match Field(rows[0], "name")
          case Err(x) => (st, Err(x))
          case Ok(name) =>
            var (st1, c) := Columns(e, dl, st, name);
            match c
            case Err(x) => (st1, Err(x))
            case Ok((col, err)) =>
              if err != "" then (st1, Ok((acc, err)))
              else
                PutInfoValid(acc, name, col);
                var r := Tables(e, dl, st1, rows[1..], Put(acc, name, col));
                assert r.0.executed[..|st.executed|] == st.executed by {
                  assert r.0.executed[..|st.executed|] == r.0.executed[..|st1.executed|][..|st.executed|];
                }
                r
  }

  /** One row of the catalog loop: an error stops it, a row that is not a
      table is skipped, and a table's columns are added before the rest. */
  lemma TablesStep(e: Engine, dl: Dialect, st: State, rows: seq<Row>, acc: TableInfo)
    requires Good(st) && !st.dirty && InfoValid(acc) && rows != []
    ensures Field(rows[0], "type").Err? ==> Tables(e, dl, st, rows, acc) == (st, Err(Field(rows[0], "type").error))
    ensures Field(rows[0], "type").Ok? && Field(rows[0], "type").value != "table" ==>
      Tables(e, dl, st, rows, acc) == Tables(e, dl, st, rows[1..], acc)
    ensures Field(rows[0], "type") == Ok("table") && Field(rows[0], "name").Err? ==>
      Tables(e, dl, st, rows, acc) == (st, Err(Field(rows[0], "name").error))
    ensures Field(rows[0], "type") == Ok("table") && Field(rows[0], "name").Ok? ==>
      var name := Field(rows[0], "name").value;
      var (st1, c) := Columns(e, dl, st, name);
      && (c.Err? ==> Tables(e, dl, st, rows, acc) == (st1, Err(c.error)))
      && (c.Ok? && c.value.1 != "" ==> Tables(e, dl, st, rows, acc) == (st1, Ok((acc, c.value.1))))
      && (c.Ok? && c.value.1 == "" ==>
            InfoValid(Put(acc, name, c.value.0)) &&
            Tables(e, dl, st, rows, acc) == Tables(e, dl, st1, rows[1..], Put(acc, name, c.value.0)))
  {
    if Field(rows[0], "type") == Ok("table") && Field(rows[0], "name").Ok? {
      var name := Field(rows[0], "name").value;
      var (st1, c) := Columns(e, dl, st, name);
      if c.Ok? {
        PutInfoValid(acc, name, c.value.0);
      }
    }
  }

  /** getTableInfo(table, err): the PRAGMA for one table, then its rows. */
  function Columns(e: Engine, dl: Dialect, st: State, table: string): (r: (State, Result<(Column, string)>))
    requires Good(st)
    ensures Good(r.0) && !r.0.dirty
    ensures r.1.Ok? ==> ColumnValid(r.1.value.0)
    ensures |r.0.executed| > |st.executed| && r.0.executed[..|st.executed|] == st.executed
    decreases Rank(st), 0, 1
  {
    var (st1, x) := Exec(e, dl, st, PragmaQuery(table));
    assert st1.executed[..|st.executed|] == st.executed by {
      assert st1.executed[..|st.executed|] == st1.executed[..|st.executed| + 1][..|st.executed|];
    }
    match x
    case Err(y) => (st1, Err(y))
    case Ok((res, err)) =>
      if err != "" then (st1, Ok(([], err)))
      else
        match TableColumns(dl, res.rows, [])
        case Err(y) => (st1, Err(y))
        case Ok(c) => (st1, Ok((c, "")))
  }

  lemma {:induction false} PutInfoValid(info: TableInfo, k: string, col: Column)
    requires InfoValid(info) && ColumnValid(col)
    ensures InfoValid(Put(info, k, col))
  {
    if info != [] && info[0].0 != k && !Less(k, info[0].0) {
      PutInfoValid(info[1..], k, col);
    }
  }

  // ---------------------------------------------------------------
  // exec as written: the refresh overwrites the result it returns

  /** exec(query) as the source returns it: last_exec_result_ after the
      refresh, which is the last catalog statement's result when the dirty
      flag was set. */
  function ExecAsWritten(e: Engine, dl: Dialect, st: State, q: string): (State, Result<(ExecResult, string)>)
    requires Good(st)
  {
    var (st1, r) := Exec(e, dl, st, q);
    match r
    case Err(x) => (st1, Err(x))
    case Ok((_, err)) => (st1, Ok((st1.lastResult, err)))
  }

  predicate IsCatalogQuery(s: string)
  {
    s == MasterQuery || "PRAGMA table_info(" <= s
  }

  /** After a refresh, last_exec_result_ belongs to a catalog statement. */
  lemma {:induction false} RefreshLeavesCatalogResult(e: Engine, dl: Dialect, st: State)
    requires Good(st) && !st.dirty
    ensures IsCatalogQuery(GetTableInfo(e, dl, st).0.lastResult.inSql)
  {
    var (st1, x) := Exec(e, dl, st, MasterQuery);
    if x.Ok? && x.value.1 == "" {
      TablesLeaveCatalogResult(e, dl, st1, x.value.0.rows, []);
    }
  }

  lemma {:induction false} TablesLeaveCatalogResult(e: Engine, dl: Dialect, st: State, rows: seq<Row>, acc: TableInfo)
    requires Good(st) && !st.dirty && InfoValid(acc) && IsCatalogQuery(st.lastResult.inSql)
    ensures IsCatalogQuery(Tables(e, dl, st, rows, acc).0.lastResult.inSql)
    decreases |rows|
  {
    if rows != [] && Field(rows[0], "type").Ok? {
      if Field(rows[0], "type").value != "table" {
        TablesLeaveCatalogResult(e, dl, st, rows[1..], acc);
      } else if Field(rows[0], "name").Ok? {
        var name := Field(rows[0], "name").value;
        var (st1, c) := Columns(e, dl, st, name);
        CleanExecDoesNotRefresh(e, dl, st, PragmaQuery(name));
        assert st1 == Exec(e, dl, st, PragmaQuery(name)).0;
        assert "PRAGMA table_info(" <= PragmaQuery(name);
        if c.Ok? && c.value.1 == "" {
          PutInfoValid(acc, name, c.value.0);
          TablesLeaveCatalogResult(e, dl, st1, rows[1..], Put(acc, name, c.value.0));
        }
      }
    }
  }

  /** As written, exec after a schema change returns a catalog result, not
      the statement's: the CREATE TABLE a caller runs gets back the rows of
      the refresh. */
  lemma ExecResultClobbered(e: Engine, dl: Dialect, st: State)
    requires Good(st) && st.dirty
    requires ExecAsWritten(e, dl, st, "CREATE TABLE t(x INTEGER); ").1.Ok?
    ensures ExecAsWritten(e, dl, st, "CREATE TABLE t(x INTEGER); ").1.value.0.inSql != "CREATE TABLE t(x INTEGER); "
    ensures Exec(e, dl, st, "CREATE TABLE t(x INTEGER); ").1.value.0.inSql == "CREATE TABLE t(x INTEGER); "
  {
    var q := "CREATE TABLE t(x INTEGER); ";
    var (st1, _) := Run(e, st, q);
    RefreshLeavesCatalogResult(e, dl, st1.(dirty := false));
    var s := ExecAsWritten(e, dl, st, q).1.value.0.inSql;
    assert IsCatalogQuery(s);
    assert q[0] == 'C' && MasterQuery[0] == 'S';
  }

  // ---------------------------------------------------------------
  // The dirty flag

  /** genQueryCreate: the statement text, and the flag set. */
  function GenQueryCreate(dl: Dialect, st: State, info: TableInfo): (State, string)
    requires InfoValid(info)
  {
    (st.(dirty := true), CreateText(dl, info))
  }

  /** With the flag clear, exec sends the statement alone and leaves the
      cached schema as it was. */
  lemma CleanExecDoesNotRefresh(e: Engine, dl: Dialect, st: State, q: string)
    requires Good(st) && !st.dirty
    ensures Exec(e, dl, st, q).0.executed == st.executed + [q]
    ensures Exec(e, dl, st, q).0.tableInfo == st.tableInfo
    ensures Exec(e, dl, st, q).0.lastResult.inSql == q
  {
  }

  /** After a CREATE is generated, the next exec sends its statement, then
      refreshes the schema starting with the catalog query, and clears the
      flag; the exec after it refreshes nothing. */
  lemma RefreshExactlyOnce(e: Engine, dl: Dialect, st: State, info: TableInfo, q1: string, q2: string)
    requires Good(st) && InfoValid(info)
    ensures var st1 := GenQueryCreate(dl, st, info).0;
      var st2 := Exec(e, dl, st1, q1).0;
      && st1.dirty
      && st2.executed[..|st.executed| + 2] == st.executed + [q1, MasterQuery]
      && !st2.dirty
      && Exec(e, dl, st2, q2).0.executed == st2.executed + [q2]
  {
    var st1 := GenQueryCreate(dl, st, info).0;
    var (s1, _) := Run(e, st1, q1);
    var s2 := s1.(dirty := false);
    var st2 := Exec(e, dl, st1, q1).0;
    assert GetTableInfo(e, dl, s2).0.executed[|s2.executed|] == MasterQuery;
    assert st2.executed[..|s2.executed|] == s2.executed;
    assert st2.executed[..|st.executed| + 2] == st.executed + [q1, MasterQuery];
  }

  /** genQueryCreate(Table_t): the CREATE and INSERTs of every table; each
      table's CREATE goes through genQueryCreate(TableInfo_t), so the flag
      is set once the first table has a row to build it from. */
  function GenQueryCreateTable(dl: Dialect, st: State, table: Table): (State, Result<string>)
    requires TableValid(table)
  {
    (if table != [] && table[0].1 != [] then st.(dirty := true) else st, CreateTableText(dl, table))
  }

  /** genQueryCreate(name, Column_t): the CREATE of the one-row table, then
      its INSERT. */
  function GenQueryCreateColumn(dl: Dialect, st: State, name: string, col: Column): (State, string)
    requires ColumnValid(col)
  {
    (st.(dirty := true), CreateText(dl, [(name, col)]) + InsertStatement(dl, name, col))
  }

  /** Creating from a single row, or from a list holding only that row,
      gives the same statements: the two overloads agree. */
  lemma CreateOverloadsAgree(dl: Dialect, st: State, name: string, col: Column)
    requires ColumnValid(col)
    ensures TableValid([(name, [col])])
    ensures GenQueryCreateTable(dl, st, [(name, [col])]).1 == Ok(GenQueryCreateColumn(dl, st, name, col).1)
    ensures GenQueryCreateTable(dl, st, [(name, [col])]).0 == GenQueryCreateColumn(dl, st, name, col).0
  {
    var table := [(name, [col])];
    assert table[..0] == [];
    CreateSingle(dl, name, col);
    assert [col][..0] == [];
    assert InsertText(dl, name, [col]) == InsertStatement(dl, name, col);
    assert CreateTableText(dl, table) == Ok("" + CreateStatement(dl, name, col) + InsertText(dl, name, [col]));
  }

  // ---------------------------------------------------------------
  // fetchColumn

  /** fetchColumn(query): the rewritten statement is executed and its rows
      decoded through the cached schema of the table. No statement is sent
      when the rewriting fails. If that exec refreshed the schema, the
      reference the source holds into the old cache dangles. */
  function FetchColumn(e: Engine, dl: Dialect, st: State, query: string): (r: (State, Result<ColumnList>))
    requires Good(st)
    ensures Good(r.0)
  {
    match Rewrite(query, st.tableInfo)
    case Err(x) => (st, Err(x))
    case Ok(plan) =>
      assert ColumnValid(plan.schema) by {
        RewriteShape(query, st.tableInfo);
        InfoLookupValid(st.tableInfo, plan.table);
      }
      var (st1, x) := Exec(e, dl, st, plan.text);
      match x
      case Err(y) => (st1, Err(y))
      case Ok((res, err)) =>
        if err != "" then (st1, Err(EngineError(err)))
        else if st.dirty then (st1, DanglingRows(res.rows))
        else (st1, DecodeRows(dl, plan.schema, res.rows))
  }

  lemma {:induction false} InfoLookupValid(info: TableInfo, table: string)
    requires InfoValid(info) && Lookup(info, table).Some?
    ensures ColumnValid(Lookup(info, table).value)
  {
    if info[0].0 != table {
      InfoLookupValid(info[1..], table);
    }
  }

  /** A query fetchColumn cannot place (no SELECT, no FROM, unknown table)
      sends nothing to the database. */
  lemma FetchRejectsWithoutExec(e: Engine, dl: Dialect, st: State, query: string)
    requires Good(st) && Rewrite(query, st.tableInfo).Err?
    ensures FetchColumn(e, dl, st, query) == (st, Err(Rewrite(query, st.tableInfo).error))
  {
  }

  /** The rows fetchColumn returns are those of the rewritten statement,
      sent exactly once when the flag is clear. */
  lemma FetchSendsRewrite(e: Engine, dl: Dialect, st: State, query: string)
    requires Good(st) && !st.dirty && Rewrite(query, st.tableInfo).Ok?
    ensures var plan := Rewrite(query, st.tableInfo).value;
      && FetchColumn(e, dl, st, query).0.executed == st.executed + [plan.text]
      && (e(st.executed, plan.text).error.None? && ColumnValid(plan.schema) ==>
            FetchColumn(e, dl, st, query).1 == DecodeRows(dl, plan.schema, e(st.executed, plan.text).rows))
  {
    var plan := Rewrite(query, st.tableInfo).value;
    RewriteShape(query, st.tableInfo);
    InfoLookupValid(st.tableInfo, plan.table);
    CleanExecDoesNotRefresh(e, dl, st, plan.text);
  }

  /** After genQueryCreate the refresh inside exec replaces the cached
      schema the rewrite took its reference from: fetchColumn is undefined
      as soon as the answer has a cell, and otherwise returns one empty
      column per row. */
  lemma FetchAfterRefresh(e: Engine, dl: Dialect, st: State, query: string)
    requires Good(st) && st.dirty && Rewrite(query, st.tableInfo).Ok?
    ensures var plan := Rewrite(query, st.tableInfo).value;
      var x := Exec(e, dl, st, plan.text).1;
      var rows := e(st.executed, plan.text).rows;
      x.Ok? && x.value.1 == "" ==>
        && (FetchColumn(e, dl, st, query).1.Err? <==> HasCell(rows))
        && (FetchColumn(e, dl, st, query).1.Ok? ==>
              |FetchColumn(e, dl, st, query).1.value| == |rows| &&
              forall i :: 0 <= i < |rows| ==> FetchColumn(e, dl, st, query).1.value[i] == [])
  {
    var plan := Rewrite(query, st.tableInfo).value;
    DanglingRowsFail(e(st.executed, plan.text).rows);
  }

  /** As written, exec hands fetchColumn the refresh's last result: the rows
      the decoding loop walks belong to a catalog statement, and the walk
      is undefined exactly when one of them has a cell. */
  lemma FetchAfterRefreshAsWritten(e: Engine, dl: Dialect, st: State, q: string)
    requires Good(st) && st.dirty
    ensures var x := ExecAsWritten(e, dl, st, q).1;
      x.Ok? ==> && IsCatalogQuery(x.value.0.inSql)
                && (DanglingRows(x.value.0.rows).Err? <==> HasCell(x.value.0.rows))
  {
    var (st1, _) := Run(e, st, q);
    RefreshLeavesCatalogResult(e, dl, st1.(dirty := false));
    var x := ExecAsWritten(e, dl, st, q).1;
    if x.Ok? {
      DanglingRowsFail(x.value.0.rows);
    }
  }

  // ---------------------------------------------------------------
  // execSeparate

  /** The statements execSeparate cuts a text into, as written: at each ';'
      and, when no ';' follows, at the position of the last character,
      which the cut leaves out. */
  function SplitAsWritten(q: string): seq<string>
    decreases |q|
  {
    if q == [] then []
    else
      match Find(q, ';')
      case Some(i) => [q[..i]] + SplitAsWritten(q[i + 1..])
      case None => [q[..|q| - 1]]
  }

  /** The evident intent: the text after the last ';' is a statement too. */
  function Split(q: string): (r: seq<string>)
    ensures forall i :: 0 <= i < |r| ==> ';' !in r[i]
    decreases |q|
  {
    if q == [] then []
    else
      match Find(q, ';')
      case Some(i) => [q[..i]] + Split(q[i + 1..])
      case None => [q]
  }

  /** The first statement of q[begin..] runs up to the next ';' (or the
      end), and the rest are split after it. */
  lemma SplitFront(q: string, begin: nat, dlm: nat)
    requires begin < |q|
    requires dlm == match Find(q[begin..], ';') case Some(i) => begin + i case None => |q|
    ensures begin <= dlm <= |q|
    ensures Split(q[begin..]) == [q[begin..dlm]] + (if dlm < |q| then Split(q[dlm + 1..]) else [])
  {
    var rest := q[begin..];
    match Find(rest, ';')
    case Some(i) =>
      assert q[begin..dlm] == rest[..i];
      assert q[dlm + 1..] == rest[i + 1..];
    case None =>
      assert q[begin..dlm] == rest;
  }

  /** Statements each followed by ';'. */
  function Terminated(segs: seq<string>): string
  {
    if segs == [] then "" else segs[0] + ";" + Terminated(segs[1..])
  }

  /** As written, a final statement without ';' loses its last character. */
  lemma SplitAsWrittenDropsLastChar(q: string)
    requires |q| > 0 && ';' !in q
    ensures SplitAsWritten(q) == [q[..|q| - 1]]
  {
  }

  lemma SplitAsWrittenExample()
    ensures SplitAsWritten("SELECT 1") == ["SELECT "]
  {
    var q := "SELECT 1";
    assert forall i :: 0 <= i < |q| ==> q[i] != ';';
    SplitAsWrittenDropsLastChar(q);
    assert q[..|q| - 1] == "SELECT ";
  }

  /** Split undoes Terminated: the statements come back unchanged. */
  lemma {:induction false} SplitTerminated(segs: seq<string>)
    requires forall i :: 0 <= i < |segs| ==> ';' !in segs[i]
    ensures Split(Terminated(segs)) == segs
  {
    if segs != [] {
      var q := Terminated(segs);
      var rest := Terminated(segs[1..]);
      assert q == segs[0] + ";" + rest;
      FindAfterPrefix(segs[0], rest);
      assert q[..|segs[0]|] == segs[0];
      assert q[|segs[0]| + 1..] == rest;
      SplitTerminated(segs[1..]);
    }
  }

  lemma {:induction false} FindAfterPrefix(w: string, rest: string)
    requires ';' !in w
    ensures Find(w + ";" + rest, ';') == Some(|w|)
  {
    if w != [] {
      assert (w + ";" + rest)[1..] == w[1..] + ";" + rest;
      FindAfterPrefix(w[1..], rest);
    }
  }

  /** Terminated undoes Split up to the final ';' a text may lack. */
  lemma {:induction false} TerminatedSplit(q: string)
    ensures Terminated(Split(q)) == if q == [] || q[|q| - 1] == ';' then q else q + ";"
    decreases |q|
  {
    if q != [] {
      match Find(q, ';')
      case None =>
      case Some(i) =>
        var rest := q[i + 1..];
        var segs := [q[..i]] + Split(rest);
        assert Split(q) == segs;
        assert segs[1..] == Split(rest);
        assert Terminated(segs) == q[..i] + ";" + Terminated(Split(rest));
        TerminatedSplit(rest);
        assert q == q[..i] + ";" + rest;
        if rest != [] {
          assert q[|q| - 1] == rest[|rest| - 1];
        }
    }
  }

  /** The loop of execSeparate over the statements: exec each in turn and
      keep its result; stop at the first one reporting an error. */
  function RunStatements(e: Engine, dl: Dialect, st: State, segs: seq<string>, acc: seq<ExecResult>)
    : (r: (State, Result<(seq<ExecResult>, string)>))
    requires Good(st)
    ensures Good(r.0)
    ensures r.1.Ok? && r.1.value.1 == "" ==> |r.1.value.0| == |acc| + |segs|
    decreases |segs|
  {
    if segs == [] then (st, Ok((acc, "")))
    else
      var (st1, x) := Exec(e, dl, st, segs[0]);
      match x
      case Err(y) => (st1, Err(y))
      case Ok((res, err)) =>
        if err != "" then (st1, Ok((acc, err)))
        else RunStatements(e, dl, st1, segs[1..], acc + [res])
  }

  /** execSeparate(query) with the statements split as intended. */
  function ExecSeparate(e: Engine, dl: Dialect, st: State, q: string): (State, Result<(seq<ExecResult>, string)>)
    requires Good(st)
  {
    RunStatements(e, dl, st, Split(q), [])
  }

  // ---------------------------------------------------------------
  // open

  /** Fetcher(db) / open(db): on success the schema cache is filled by
      getTableInfo, its error text kept in last_err_; on failure only
      last_err_ is set. */
  function Open(e: Engine, dl: Dialect, st: State, failure: Option<string>): (r: (State, Result<bool>))
    requires Good(st)
    ensures Good(r.0)
  {
    match failure
    case Some(msg) => (st.(lastErr := msg), Ok(false))
    case None =>
      var (st1, x) := GetTableInfo(e, dl, st);
      match x
      case Err(y) => (st1, Err(y))
      case Ok((info, err)) => (st1.(tableInfo := info, lastErr := err), Ok(true))
  }
}
