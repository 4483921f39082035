/**
 * Query generation of src/SqliteFetcher.cpp: the CREATE TABLE, INSERT and
 * UPDATE statements built from schema and row maps. Each statement has a
 * reference definition (a function over the map's entries in iteration
 * order) and the accumulator loop of the source, proved equal to it.
 */
module Generate {
  import opened Wrappers
  import opened Strings
  import opened OrderedMap
  import opened Values
  import opened Defaults

  /** Column_t: column name to value, in key order. */
  type Column = Assoc<DataValue>
  /** TableInfo_t: table name to its columns. */
  type TableInfo = Assoc<Column>
  /** ColumnList_t: the rows of one table. */
  type ColumnList = seq<Column>
  /** Table_t: table name to its rows. */
  type Table = Assoc<ColumnList>

  predicate ColumnValid(col: Column)
  {
    forall i :: 0 <= i < |col| ==> Valid(col[i].1)
  }

  predicate InfoValid(info: TableInfo)
  {
    forall i :: 0 <= i < |info| ==> ColumnValid(info[i].1)
  }

  predicate RowsValid(rows: ColumnList)
  {
    forall i :: 0 <= i < |rows| ==> ColumnValid(rows[i])
  }

  predicate TableValid(table: Table)
  {
    forall i :: 0 <= i < |table| ==> RowsValid(table[i].1)
  }

  lemma JoinSnoc(items: seq<string>, sep: string, x: string)
    ensures Join(items + [x], sep) == if items == [] then x else Join(items, sep) + sep + x
  {
    assert (items + [x])[..|items|] == items;
  }

  // ---------------------------------------------------------------
  // CREATE TABLE

  /** The column definitions `name typeStr()` in key order. */
  function Definitions(dl: Dialect, col: Column): (r: seq<string>)
    requires ColumnValid(col)
    ensures |r| == |col|
    ensures forall i :: 0 <= i < |col| ==> r[i] == col[i].0 + " " + TypeStr(dl, col[i].1, dl.printFlagsByDefault)
  {
    seq(|col|, i requires 0 <= i < |col| => col[i].0 + " " + TypeStr(dl, col[i].1, dl.printFlagsByDefault))
  }

  /** The type part of a column's definition resolves, as a declared type,
      to the tag its own type text does: CREATE TABLE recreates the
      column's tag. */
  lemma DefinitionKeepsTag(dl: Dialect, col: Column, i: nat, w: string, rest: string)
    requires ColumnValid(col) && i < |col| && col[i].1.typeText == w + rest
    requires |w| > 0 && forall j :: 0 <= j < |w| ==> !IsSpace(w[j]) && w[j] != '('
    requires rest == [] || IsSpace(rest[0]) || rest[0] == '('
    ensures |Definitions(dl, col)[i]| > |col[i].0|
    ensures DeclaredTag(dl.typeDef, Definitions(dl, col)[i][|col[i].0| + 1..]) == DeclaredTag(dl.typeDef, w)
    ensures col[i].1.tag == DeclaredTag(dl.typeDef, col[i].1.typeText) ==>
              DeclaredTag(dl.typeDef, Definitions(dl, col)[i][|col[i].0| + 1..]) == col[i].1.tag
  {
    var d := col[i].1;
    var typePart := TypeStr(dl, d, dl.printFlagsByDefault);
    assert Definitions(dl, col)[i][|col[i].0| + 1..] == typePart;
    TypeStrKeepsTag(dl, d, dl.printFlagsByDefault, w, rest);
    DeclaredTagOfWord(dl.typeDef, w, rest);
    DeclaredTagOfWord(dl.typeDef, w, []);
    assert w + [] == w;
  }

  /** `CREATE TABLE name(def, def, ...); ` */
  function CreateStatement(dl: Dialect, name: string, col: Column): string
    requires ColumnValid(col)
  {
    "CREATE TABLE " + name + "(" + Join(Definitions(dl, col), ", ") + "); "
  }

  /** One CREATE statement per table, in key order. */
  function CreateText(dl: Dialect, info: TableInfo): string
    requires InfoValid(info)
  {
    if info == [] then ""
    else CreateText(dl, info[..|info| - 1]) + CreateStatement(dl, info[|info| - 1].0, info[|info| - 1].1)
  }

  /** genQueryCreate(TableInfo_t): the accumulator loop over tables. */
  method CreateQuery(dl: Dialect, info: TableInfo) returns (ret: string)
    requires InfoValid(info)
    ensures ret == CreateText(dl, info)
  {
    ret := "";
    var t := 0;
    while t < |info|
      invariant 0 <= t <= |info| && ret == CreateText(dl, info[..t])
    {
      var one := CreateTableStatement(dl, info[t].0, info[t].1);
      assert info[..t + 1][..t] == info[..t];
      ret := ret + one;
      t := t + 1;
    }
    assert info[..t] == info;
  }

  /** The body of that loop for one table: the column loop with the
      is_first separator flag. */
  method CreateTableStatement(dl: Dialect, name: string, col: Column) returns (ret: string)
    requires ColumnValid(col)
    ensures ret == CreateStatement(dl, name, col)
  {
    ret := "CREATE TABLE " + name + "(";
    ret := AppendJoined(ret, Definitions(dl, col));
    ret := ret + "); ";
  }

  lemma CreateSingle(dl: Dialect, name: string, col: Column)
    requires ColumnValid(col)
    ensures CreateText(dl, [(name, col)]) == CreateStatement(dl, name, col)
  {
    assert [(name, col)][..0] == [];
  }

  // ---------------------------------------------------------------
  // INSERT

  /** The str() literal of every value, in key order. */
  function Literals(dl: Dialect, col: Column): (r: seq<string>)
    requires ColumnValid(col)
    ensures |r| == |col|
    ensures forall i :: 0 <= i < |col| ==> r[i] == Literal(dl, col[i].1)
  {
    seq(|col|, i requires 0 <= i < |col| => Literal(dl, col[i].1))
  }

  /** The VALUES of an INSERT read back: the literal of an integral or
      BLOB cell parses, by the cell's tag, to the value the cell holds. */
  lemma LiteralsReadBack(dl: Dialect, col: Column, i: nat)
    requires ColumnValid(col) && i < |col|
    requires Integral(col[i].1.tag) || col[i].1.tag == Blob
    ensures ParseDefault(dl, col[i].1.tag, Literals(dl, col)[i]) == Ok(Some(Current(col[i].1)))
  {
    NativeRoundTrip(dl, Current(col[i].1));
  }

  /** `INSERT INTO name(k, k, ...) VALUES(v, v, ...); ` */
  function InsertStatement(dl: Dialect, name: string, col: Column): string
    requires ColumnValid(col)
  {
    "INSERT INTO " + name + "(" + Join(Keys(col), ", ") + ") VALUES(" + Join(Literals(dl, col), ", ") + "); "
  }

  /** One INSERT per row, in list order. */
  function InsertText(dl: Dialect, name: string, rows: ColumnList): string
    requires RowsValid(rows)
  {
    if rows == [] then ""
    else InsertText(dl, name, rows[..|rows| - 1]) + InsertStatement(dl, name, rows[|rows| - 1])
  }

  /** The is_first loop that appends items[k] for each k, comma-separated. */
  method AppendJoined(ret: string, items: seq<string>) returns (r: string)
    ensures r == ret + Join(items, ", ")
  {
    r := ret;
    var isFirst := true;
    var k := 0;
    while k < |items|
      invariant 0 <= k <= |items| && isFirst == (k == 0)
      invariant r == ret + Join(items[..k], ", ")
    {
      JoinSnoc(items[..k], ", ", items[k]);
      assert items[..k + 1] == items[..k] + [items[k]];
      if !isFirst {
        r := r + ", ";
      } else {
        isFirst := false;
      }
      r := r + items[k];
      k := k + 1;
    }
    assert items[..k] == items;
  }

  /** genQueryInsert(name, Column_t): the key loop, then the str() loop. */
  method InsertQuery(dl: Dialect, name: string, col: Column) returns (ret: string)
    requires ColumnValid(col)
    ensures ret == InsertStatement(dl, name, col)
  {
    ret := "INSERT INTO " + name + "(";
    ret := AppendJoined(ret, Keys(col));
    ret := ret + ") VALUES(";
    ret := AppendJoined(ret, Literals(dl, col));
    ret := ret + "); ";
  }

  /** genQueryInsert(name, ColumnList_t): the rows' INSERTs in order. */
  method InsertListQuery(dl: Dialect, name: string, rows: ColumnList) returns (ret: string)
    requires RowsValid(rows)
    ensures ret == InsertText(dl, name, rows)
  {
    ret := "";
    var k := 0;
    while k < |rows|
      invariant 0 <= k <= |rows| && ret == InsertText(dl, name, rows[..k])
    {
      var one := InsertQuery(dl, name, rows[k]);
      ghost var prefix := rows[..k + 1];
      assert prefix[..k] == rows[..k] && prefix[k] == rows[k];
      assert RowsValid(prefix);
      assert InsertText(dl, name, prefix) == InsertText(dl, name, rows[..k]) + one;
      ret := ret + one;
      k := k + 1;
    }
    assert rows[..k] == rows;
  }

  // ---------------------------------------------------------------
  // CREATE from rows

  /** genQueryCreate(Table_t): per table, the CREATE built from its first
      row, then an INSERT for every row. front() of an empty row list is
      undefined behaviour. */
  function CreateTableText(dl: Dialect, table: Table): Result<string>
    requires TableValid(table)
  {
    if table == [] then Ok("")
    else
      var (name, rows) := table[|table| - 1];
      match CreateTableText(dl, table[..|table| - 1])
      case Err(e) => Err(e)
      case Ok(prefix) =>
        if rows == [] then Err(Undefined("front() of an empty column list"))
        else Ok(prefix + CreateStatement(dl, name, rows[0]) + InsertText(dl, name, rows))
  }

  method CreateTableQuery(dl: Dialect, table: Table) returns (r: Result<string>)
    requires TableValid(table)
    ensures r == CreateTableText(dl, table)
  {
    var ret := "";
    var t := 0;
    while t < |table|
      invariant 0 <= t <= |table| && CreateTableText(dl, table[..t]) == Ok(ret)
    {
      var name := table[t].0;
      var rows := table[t].1;
      if rows == [] {
        ErrorStays(dl, table, t + 1);
        return Err(Undefined("front() of an empty column list"));
      }
      assert ColumnValid(rows[0]) && RowsValid(rows);
      var create := CreateQuery(dl, [(name, rows[0])]);
      CreateSingle(dl, name, rows[0]);
      var inserts := InsertListQuery(dl, name, rows);
      CreateTableStep(dl, table, t, ret);
      ret := ret + create + inserts;
      t := t + 1;
    }
    assert table[..t] == table;
    return Ok(ret);
  }

  lemma CreateTableStep(dl: Dialect, table: Table, t: nat, ret: string)
    requires TableValid(table) && t < |table| && table[t].1 != []
    requires CreateTableText(dl, table[..t]) == Ok(ret)
    ensures ColumnValid(table[t].1[0]) && RowsValid(table[t].1)
    ensures CreateTableText(dl, table[..t + 1])
         == Ok(ret + CreateStatement(dl, table[t].0, table[t].1[0]) + InsertText(dl, table[t].0, table[t].1))
  {
    assert table[..t + 1][..t] == table[..t];
    assert table[..t + 1][t] == table[t];
  }

  /** Once a table has no rows, the whole generation is undefined. */
  lemma {:induction false} ErrorStays(dl: Dialect, table: Table, n: nat)
    requires TableValid(table) && 0 < n <= |table| && table[n - 1].1 == []
    ensures CreateTableText(dl, table) == Err(Undefined("front() of an empty column list"))
    decreases |table|
  {
    if n < |table| {
      ErrorStays(dl, table[..|table| - 1], n);
    } else {
      var prefix := table[..|table| - 1];
      if CreateTableText(dl, prefix).Err? {
        FirstErrorIsUndefined(dl, prefix);
      }
    }
  }

  /** The only error CreateTableText reports is the empty row list. */
  lemma {:induction false} FirstErrorIsUndefined(dl: Dialect, table: Table)
    requires TableValid(table)
    ensures CreateTableText(dl, table).Err? ==> CreateTableText(dl, table) == Err(Undefined("front() of an empty column list"))
    decreases |table|
  {
    if table != [] {
      FirstErrorIsUndefined(dl, table[..|table| - 1]);
    }
  }

  // ---------------------------------------------------------------
  // UPDATE

  /** The columns that are not PRIMARY KEY, in key order. */
  function NonKeys(col: Column): (r: Column)
    ensures forall i :: 0 <= i < |r| ==> !r[i].1.flags.primaryKey
    ensures ColumnValid(col) ==> ColumnValid(r)
  {
    if col == [] then []
    else
      var rest := NonKeys(col[..|col| - 1]);
      if col[|col| - 1].1.flags.primaryKey then rest else rest + [col[|col| - 1]]
  }

  /** NonKeys drops exactly the key columns: every column it keeps is one
      of col's, and every non-key column of col is kept. */
  lemma {:induction false} NonKeysContents(col: Column)
    ensures forall p :: p in NonKeys(col) ==> p in col
    ensures forall i :: 0 <= i < |col| && !col[i].1.flags.primaryKey ==> col[i] in NonKeys(col)
  {
    if col != [] {
      var prefix := col[..|col| - 1];
      NonKeysContents(prefix);
      forall i | 0 <= i < |col| - 1
        ensures col[i] == prefix[i]
      {
      }
    }
  }

  /** The position of the last PRIMARY KEY column, if any. */
  function LastKey(col: Column): (r: Option<nat>)
    ensures r.None? <==> forall i :: 0 <= i < |col| ==> !col[i].1.flags.primaryKey
    ensures r.Some? ==> r.value < |col| && col[r.value].1.flags.primaryKey
    ensures r.Some? ==> forall j :: r.value < j < |col| ==> !col[j].1.flags.primaryKey
  {
    if col == [] then None
    else if col[|col| - 1].1.flags.primaryKey then Some(|col| - 1)
    else
      assert forall i :: 0 <= i < |col| - 1 ==> col[..|col| - 1][i] == col[i];
      LastKey(col[..|col| - 1])
  }

  /** `name = literal` for every column given. */
  function Assignments(dl: Dialect, col: Column): (r: seq<string>)
    requires ColumnValid(col)
    ensures |r| == |col|
  {
    seq(|col|, i requires 0 <= i < |col| => col[i].0 + " = " + Literal(dl, col[i].1))
  }

  /** ` WHERE key = literal` for the last key column; nothing without one. */
  function WhereClause(dl: Dialect, col: Column): string
    requires ColumnValid(col)
  {
    match LastKey(col)
    case None => ""
    case Some(i) => " WHERE " + col[i].0 + " = " + Literal(dl, col[i].1)
  }

  /** `UPDATE name SET a = x, b = y WHERE key = z` (no terminator). */
  function UpdateStatement(dl: Dialect, name: string, col: Column): string
    requires ColumnValid(col)
  {
    assert ColumnValid(NonKeys(col));
    "UPDATE " + name + " SET " + Join(Assignments(dl, NonKeys(col)), ", ") + WhereClause(dl, col)
  }

  /** One more column: a key column moves the last key, another one joins
      the SET list. */
  lemma UpdateStep(col: Column, k: nat)
    requires k < |col|
    ensures col[k].1.flags.primaryKey ==> NonKeys(col[..k + 1]) == NonKeys(col[..k]) && LastKey(col[..k + 1]) == Some(k)
    ensures !col[k].1.flags.primaryKey ==> NonKeys(col[..k + 1]) == NonKeys(col[..k]) + [col[k]] && LastKey(col[..k + 1]) == LastKey(col[..k])
  {
    assert col[..k + 1][..k] == col[..k];
  }

  lemma AssignmentsSnoc(dl: Dialect, col: Column, p: (string, DataValue))
    requires ColumnValid(col) && Valid(p.1)
    ensures ColumnValid(col + [p])
    ensures Assignments(dl, col + [p]) == Assignments(dl, col) + [p.0 + " = " + Literal(dl, p.1)]
  {
  }

  /** genQueryUpdate: one pass, key columns overwrite key_str, the others
      are appended to the SET list. */
  method UpdateQuery(dl: Dialect, name: string, col: Column) returns (ret: string)
    requires ColumnValid(col)
    ensures ret == UpdateStatement(dl, name, col)
  {
    ret := "UPDATE " + name + " SET ";
    ghost var head := ret;
    var hasId := false;
    var isFirst := true;
    var keyStr := "";
    var k := 0;
    while k < |col|
      invariant 0 <= k <= |col| && ColumnValid(col[..k])
      invariant isFirst == (NonKeys(col[..k]) == [])
      invariant ret == head + Join(Assignments(dl, NonKeys(col[..k])), ", ")
      invariant hasId == LastKey(col[..k]).Some?
      invariant keyStr == WhereClause(dl, col[..k])
    {
      var lit := Literal(dl, col[k].1);
      if col[k].1.flags.primaryKey {
        UpdateKeyStep(dl, col, k);
        keyStr := " WHERE " + col[k].0 + " = " + lit;
        hasId := true;
      } else {
        UpdateSetStep(dl, col, k);
        ret, isFirst := AppendAssignment(ret, isFirst, col[k].0 + " = " + lit, head, Join(Assignments(dl, NonKeys(col[..k])), ", "));
      }
      k := k + 1;
    }
    assert col[..k] == col;
    if hasId {
      ret := ret + keyStr;
    }
  }

  /** Appends one `name = literal` to the SET list of genQueryUpdate,
      preceded by a comma unless it is the first. */
  method AppendAssignment(ret: string, isFirst: bool, item: string, ghost head: string, ghost prev: string)
    returns (ret': string, isFirst': bool)
    requires ret == head + prev && (isFirst ==> prev == "")
    ensures ret' == head + ((if isFirst then "" else prev + ", ") + item)
    ensures !isFirst'
  {
    ret' := ret;
    if !isFirst {
      ret' := ret' + ", ";
    }
    ret' := ret' + item;
    isFirst' := false;
  }

  /** A key column: the SET list stays, the WHERE clause becomes this
      column's. */
  lemma UpdateKeyStep(dl: Dialect, col: Column, k: nat)
    requires ColumnValid(col) && k < |col| && col[k].1.flags.primaryKey
    ensures ColumnValid(col[..k + 1])
    ensures NonKeys(col[..k + 1]) == NonKeys(col[..k])
    ensures LastKey(col[..k + 1]).Some?
    ensures WhereClause(dl, col[..k + 1]) == " WHERE " + col[k].0 + " = " + Literal(dl, col[k].1)
  {
    UpdateStep(col, k);
    assert col[..k + 1][k] == col[k];
  }

  /** A non-key column joins the SET list; the WHERE clause stays. */
  lemma UpdateSetStep(dl: Dialect, col: Column, k: nat)
    requires ColumnValid(col) && k < |col| && !col[k].1.flags.primaryKey
    ensures ColumnValid(col[..k]) && ColumnValid(col[..k + 1])
    ensures NonKeys(col[..k + 1]) != []
    ensures LastKey(col[..k + 1]) == LastKey(col[..k])
    ensures WhereClause(dl, col[..k + 1]) == WhereClause(dl, col[..k])
    ensures Join(Assignments(dl, NonKeys(col[..k + 1])), ", ") ==
      (if NonKeys(col[..k]) == [] then "" else Join(Assignments(dl, NonKeys(col[..k])), ", ") + ", ")
      + (col[k].0 + " = " + Literal(dl, col[k].1))
  {
    UpdateStep(col, k);
    var before := NonKeys(col[..k]);
    AssignmentsSnoc(dl, before, col[k]);
    JoinSnoc(Assignments(dl, before), ", ", col[k].0 + " = " + Literal(dl, col[k].1));
    match LastKey(col[..k]) {
      case None =>
      case Some(i) => assert col[..k + 1][i] == col[..k][i];
    }
  }

  // ---------------------------------------------------------------
  // Properties

  /** The UPDATE has a WHERE clause exactly when some column is a key. */
  lemma WhereIffKey(dl: Dialect, col: Column)
    requires ColumnValid(col)
    ensures WhereClause(dl, col) == "" <==> forall i :: 0 <= i < |col| ==> !col[i].1.flags.primaryKey
  {
    if LastKey(col).Some? {
      assert |WhereClause(dl, col)| > 0;
    }
  }

  /** The SET list of the UPDATE holds every non-key column and no key column. */
  lemma SetListExcludesKeys(dl: Dialect, col: Column, i: nat)
    requires ColumnValid(col) && i < |col|
    ensures col[i].1.flags.primaryKey ==> col[i] !in NonKeys(col)
    ensures !col[i].1.flags.primaryKey ==> col[i] in NonKeys(col)
  {
    NonKeysContents(col);
  }
}
