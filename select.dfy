/**
 * The pure part of Fetcher::fetchColumn in src/SqliteFetcher.cpp: the
 * SELECT statement is split into words, its table and selected columns are
 * found in the cached schema, BLOB columns are wrapped in quote() so that
 * SQLite returns them as X'..' literals, and the result rows are turned
 * back into typed values through the schema.
 */
module Select {
  import opened Wrappers
  import opened Strings
  import opened OrderedMap
  import opened Values
  import opened Defaults
  import opened Generate

  /** A word as fetchColumn keeps it: its first ',' erased, then its first ';'. */
  function CleanWord(w: string): string
  {
    EraseFirst(EraseFirst(w, ','), ';')
  }

  /** The words of the query, cleaned. */
  function Tokens(query: string): (r: seq<string>)
    ensures |r| == |Words(query)|
  {
    Cleaned(Words(query))
  }

  /** Each word cleaned, in order. */
  function Cleaned(ws: seq<string>): (r: seq<string>)
    ensures |r| == |ws|
  {
    if ws == [] then [] else Cleaned(ws[..|ws| - 1]) + [CleanWord(ws[|ws| - 1])]
  }

  /** Token i is word i with its first ',' and then its first ';' erased. */
  lemma {:induction false} CleanedAt(ws: seq<string>, i: nat)
    requires i < |ws|
    ensures Cleaned(ws)[i] == CleanWord(ws[i])
  {
    if i < |ws| - 1 {
      CleanedAt(ws[..|ws| - 1], i);
    }
  }

  /** std::find_if for a word equal to a or b: the first such position. */
  function IndexOf(ws: seq<string>, a: string, b: string): (r: Option<nat>)
    ensures r.Some? ==> r.value < |ws| && (ws[r.value] == a || ws[r.value] == b)
    ensures r.Some? ==> forall j :: 0 <= j < r.value ==> ws[j] != a && ws[j] != b
    ensures r.None? ==> forall j :: 0 <= j < |ws| ==> ws[j] != a && ws[j] != b
  {
    if ws == [] then None
    else if ws[0] == a || ws[0] == b then Some(0)
    else match IndexOf(ws[1..], a, b)
      case None => None
      case Some(i) => Some(i + 1)
  }

  /** The select-list expression of a column: quote(name) for a BLOB. */
  function Quoted(name: string, d: DataValue): string
  {
    if d.tag == Blob then "quote(" + name + ")" else name
  }

  /** Every word followed by a space. */
  function Spaced(ws: seq<string>): string
  {
    if ws == [] then "" else Spaced(ws[..|ws| - 1]) + ws[|ws| - 1] + " "
  }

  /** Every word preceded by a space. */
  function Prefixed(ws: seq<string>): string
  {
    if ws == [] then "" else Prefixed(ws[..|ws| - 1]) + " " + ws[|ws| - 1]
  }

  /** The statement fetchColumn sends, with what it needs to decode the
      answer: the table's schema. */
  datatype Plan = Plan(table: string, schema: Column, selected: Column, text: string)

  /** The schema entries the select list names: all of them when a "*"
      lies between SELECT and FROM, otherwise the listed words in order.
      A listed word that is not a column dereferences end(). */
  function Selection(ws: seq<string>, schema: Column): (r: Result<Column>)
    ensures r.Ok? ==> forall i :: 0 <= i < |r.value| ==> r.value[i] in schema
  {
    if ws == [] then Ok([])
    else
      match Selection(ws[..|ws| - 1], schema)
      case Err(e) => Err(e)
      case Ok(prefix) =>
        match Lookup(schema, ws[|ws| - 1])
        case None => Err(Undefined("selected column missing from the schema"))
        case Some(d) => Ok(prefix + [(ws[|ws| - 1], d)])
  }

  /** Some selected column is a BLOB. */
  predicate HasBlob(col: Column)
  {
    exists i :: 0 <= i < |col| && col[i].1.tag == Blob
  }

  /** The select-list expressions of the selected columns. */
  function Expressions(col: Column): (r: seq<string>)
    ensures |r| == |col|
  {
    seq(|col|, i requires 0 <= i < |col| => Quoted(col[i].0, col[i].1))
  }

  /** The rewriting of fetchColumn up to the exec call. */
  function Rewrite(query: string, info: TableInfo): Result<Plan>
  {
    var ws := Tokens(query);
    match Keywords(ws)
    case Err(e) => Err(e)
    case Ok(pos) => Locate(query, ws, pos.0, pos.1, info)
  }

  /** The positions of the first SELECT and the first FROM; FROM must be
      followed by a word, which the source reads unchecked. */
  function Keywords(ws: seq<string>): (r: Result<(nat, nat)>)
    ensures r.Ok? ==> r.value.0 != r.value.1 && r.value.1 < |ws| - 1
  {
    match IndexOf(ws, "select", "SELECT")
    case None => Err(MalformedQuery("Query doen't include 'FROM' statement"))
    case Some(sel) =>
      match IndexOf(ws, "from", "FROM")
      case None => Err(MalformedQuery("Query doen't include 'FROM' statement"))
      case Some(from) =>
        if from + 1 == |ws| then Err(Undefined("no word after FROM"))
        else
          assert ws[sel][0] == 's' || ws[sel][0] == 'S';
          assert ws[from][0] == 'f' || ws[from][0] == 'F';
          Ok((sel, from))
  }

  /** Keywords succeeds exactly when both keywords occur and a word follows
      FROM, and then gives the first occurrence of each. */
  lemma KeywordsFound(ws: seq<string>)
    ensures Keywords(ws).Ok? <==>
      IndexOf(ws, "select", "SELECT").Some? && IndexOf(ws, "from", "FROM").Some? &&
      IndexOf(ws, "from", "FROM").value < |ws| - 1
    ensures Keywords(ws).Ok? ==>
      Keywords(ws).value == (IndexOf(ws, "select", "SELECT").value, IndexOf(ws, "from", "FROM").value)
  {
  }

  /** The table after FROM looked up in the cached schema; the "*" search
      from SELECT to FROM needs SELECT first. */
  function Locate(query: string, ws: seq<string>, sel: nat, from: nat, info: TableInfo): Result<Plan>
    requires sel != from && from < |ws| - 1
  {
    match Lookup(info, ws[from + 1])
    case None => Err(UnknownTable(ws[from + 1]))
    case Some(schema) =>
      if from < sel then Err(Undefined("SELECT after FROM"))
      else Restate(query, ws, sel, from, schema)
  }

  /** The rewriting once SELECT (at sel), FROM (at from, after sel) and the
      table's schema are known: the selected columns, and the text to send,
      rebuilt from the words only when some selected column is a BLOB. */
  function Restate(query: string, ws: seq<string>, sel: nat, from: nat, schema: Column): Result<Plan>
    requires sel < from < |ws| - 1
  {
    var picked :=
      if "*" in ws[sel..from] then Ok(schema) else Selection(ws[sel + 1..from], schema);
    match picked
    case Err(e) => Err(e)
    case Ok(selected) =>
      var text :=
        if HasBlob(selected)
        then Spaced(ws[..sel + 1]) + Join(Expressions(selected), ", ") + Prefixed(ws[from..]) + ";"
        else query + ";";
      Ok(Plan(ws[from + 1], schema, selected, text))
  }

  // ---------------------------------------------------------------
  // Decoding the answer

  /** The schema key of a result column: quote(x) is cut back to x (the six
      characters of "quote(" and the last character dropped). */
  function ResultKey(key: string): string
  {
    if Contains(key, "quote(") then (if |key| >= 7 then key[6..|key| - 1] else "") else key
  }

  /** One result row (column name to cell text) as typed values: each cell
      parsed by Data(cell, typeStr(), flags()) of its schema column. A
      result column missing from the schema dereferences end(). */
  function DecodeRow(dl: Dialect, schema: Column, row: Assoc<string>): (r: Result<Column>)
    requires ColumnValid(schema)
    ensures r.Ok? ==> ColumnValid(r.value)
  {
    if row == [] then Ok([])
    else
      match DecodeRow(dl, schema, row[..|row| - 1])
      case Err(e) => Err(e)
      case Ok(acc) =>
        var key := ResultKey(row[|row| - 1].0);
        match Lookup(schema, key)
        case None => Err(Undefined("result column missing from the schema"))
        case Some(d) =>
          assert Valid(d) && Fits(d);
          match FromText(dl, row[|row| - 1].1, TypeStr(dl, d, dl.printFlagsByDefault), d.flags)
          case Err(e) => Err(e)
          case Ok(v) =>
            PutValid(acc, key, v);
            Ok(Put(acc, key, v))
  }

  lemma {:induction false} PutValid(col: Column, k: string, v: DataValue)
    requires ColumnValid(col) && Valid(v)
    ensures ColumnValid(Put(col, k, v))
  {
    if col != [] && col[0].0 != k && !Less(k, col[0].0) {
      PutValid(col[1..], k, v);
    }
  }

  /** Every row decoded, in order; the first failure ends the call. */
  function DecodeRows(dl: Dialect, schema: Column, rows: seq<Assoc<string>>): (r: Result<ColumnList>)
    requires ColumnValid(schema)
    ensures r.Ok? ==> |r.value| == |rows| && RowsValid(r.value)
  {
    if rows == [] then Ok([])
    else
      match DecodeRows(dl, schema, rows[..|rows| - 1])
      case Err(e) => Err(e)
      case Ok(prefix) =>
        match DecodeRow(dl, schema, rows[|rows| - 1])
        case Err(e) => Err(e)
        case Ok(c) => Ok(prefix + [c])
  }

  // ---------------------------------------------------------------
  // The loops of fetchColumn

  /** The `while (iss >> a_word)` loop with its two erase calls. */
  method Tokenize(query: string) returns (ws: seq<string>)
    ensures ws == Tokens(query)
  {
    var words := Words(query);
    ws := [];
    var k := 0;
    while k < |words|
      invariant 0 <= k <= |words| && ws == Cleaned(words[..k])
    {
      assert words[..k + 1][..k] == words[..k];
      var w := Clean(words[k]);
      ws := ws + [w];
      k := k + 1;
    }
    assert words[..k] == words;
  }

  /** The two erase calls on one word. */
  method Clean(word: string) returns (w: string)
    ensures w == CleanWord(word)
  {
    w := word;
    match Find(w, ',') {
      case Some(i) => w := w[..i] + w[i + 1..];
      case None =>
    }
    match Find(w, ';') {
      case Some(i) => w := w[..i] + w[i + 1..];
      case None =>
    }
  }

  /** std::find_if with the two-spelling keyword test. */
  method FindWord(ws: seq<string>, a: string, b: string) returns (r: Option<nat>)
    ensures r == IndexOf(ws, a, b)
  {
    var k := 0;
    while k < |ws|
      invariant 0 <= k <= |ws|
      invariant forall j :: 0 <= j < k ==> ws[j] != a && ws[j] != b
    {
      if ws[k] == a || ws[k] == b {
        IndexOfFirst(ws, a, b, k);
        return Some(k);
      }
      k := k + 1;
    }
    IndexOfNone(ws, a, b);
    return None;
  }

  lemma {:induction false} IndexOfFirst(ws: seq<string>, a: string, b: string, k: nat)
    requires k < |ws| && (ws[k] == a || ws[k] == b)
    requires forall j :: 0 <= j < k ==> ws[j] != a && ws[j] != b
    ensures IndexOf(ws, a, b) == Some(k)
  {
    if k > 0 {
      IndexOfFirst(ws[1..], a, b, k - 1);
    }
  }

  lemma {:induction false} IndexOfNone(ws: seq<string>, a: string, b: string)
    requires forall j :: 0 <= j < |ws| ==> ws[j] != a && ws[j] != b
    ensures IndexOf(ws, a, b) == None
  {
    if ws != [] {
      IndexOfNone(ws[1..], a, b);
    }
  }

  /** The loop over the words up to and including SELECT, each followed by
      a space. */
  method SpacedWords(ws: seq<string>) returns (r: string)
    ensures r == Spaced(ws)
  {
    r := "";
    var k := 0;
    while k < |ws|
      invariant 0 <= k <= |ws| && r == Spaced(ws[..k])
    {
      assert ws[..k + 1][..k] == ws[..k];
      r := r + ws[k] + " ";
      k := k + 1;
    }
    assert ws[..k] == ws;
  }

  /** The loop over the words from FROM on, each preceded by a space. */
  method PrefixedWords(ws: seq<string>) returns (r: string)
    ensures r == Prefixed(ws)
  {
    r := "";
    var k := 0;
    while k < |ws|
      invariant 0 <= k <= |ws| && r == Prefixed(ws[..k])
    {
      assert ws[..k + 1][..k] == ws[..k];
      r := r + " " + ws[k];
      k := k + 1;
    }
    assert ws[..k] == ws;
  }

  /** The loop over the listed words: each looked up in the schema. */
  method SelectColumns(ws: seq<string>, schema: Column) returns (r: Result<Column>)
    ensures r == Selection(ws, schema)
  {
    var picked: Column := [];
    var k := 0;
    while k < |ws|
      invariant 0 <= k <= |ws| && Selection(ws[..k], schema) == Ok(picked)
    {
      assert ws[..k + 1][..k] == ws[..k];
      match Lookup(schema, ws[k]) {
        case None =>
          SelectionErrorStays(ws, schema, k + 1);
          return Err(Undefined("selected column missing from the schema"));
        case Some(d) =>
          picked := picked + [(ws[k], d)];
      }
      k := k + 1;
    }
    assert ws[..k] == ws;
    return Ok(picked);
  }

  lemma {:induction false} SelectionErrorStays(ws: seq<string>, schema: Column, n: nat)
    requires 0 < n <= |ws| && Lookup(schema, ws[n - 1]).None?
    requires Selection(ws[..n - 1], schema).Ok?
    ensures Selection(ws, schema) == Err(Undefined("selected column missing from the schema"))
    decreases |ws|
  {
    if n < |ws| {
      assert ws[..|ws| - 1][n - 1] == ws[n - 1];
      assert ws[..|ws| - 1][..n - 1] == ws[..n - 1];
      SelectionErrorStays(ws[..|ws| - 1], schema, n);
    } else {
      assert ws[..|ws| - 1] == ws[..n - 1];
    }
  }

  /** The column loops: the select-list expressions joined by ", ", and
      whether any of them is a quote(). */
  method ListExpressions(col: Column) returns (text: string, changed: bool)
    ensures text == Join(Expressions(col), ", ")
    ensures changed == HasBlob(col)
  {
    var exprs := Expressions(col);
    text := AppendJoined("", exprs);
    changed := false;
    var k := 0;
    while k < |col|
      invariant 0 <= k <= |col|
      invariant changed <==> exists i :: 0 <= i < k && col[i].1.tag == Blob
    {
      if col[k].1.tag == Blob {
        changed := true;
      }
      k := k + 1;
    }
  }

  /** fetchColumn up to the exec call. */
  method RewriteQuery(query: string, info: TableInfo) returns (r: Result<Plan>)
    ensures r == Rewrite(query, info)
  {
    var ws := Tokenize(query);
    var pos := FindKeywords(ws);
    if pos.Err? {
      return Err(pos.error);
    }
    r := LocateQuery(query, ws, pos.value.0, pos.value.1, info);
  }

  /** The two find_if calls and the check on the word after FROM. */
  method FindKeywords(ws: seq<string>) returns (r: Result<(nat, nat)>)
    ensures r == Keywords(ws)
  {
    var sel := FindWord(ws, "select", "SELECT");
    if sel.None? {
      return Err(MalformedQuery("Query doen't include 'FROM' statement"));
    }
    var from := FindWord(ws, "from", "FROM");
    if from.None? {
      return Err(MalformedQuery("Query doen't include 'FROM' statement"));
    }
    if from.value + 1 == |ws| {
      return Err(Undefined("no word after FROM"));
    }
    return Ok((sel.value, from.value));
  }

  /** The schema lookup, then the rest of the rewrite. */
  method LocateQuery(query: string, ws: seq<string>, sel: nat, from: nat, info: TableInfo) returns (r: Result<Plan>)
    requires sel != from && from < |ws| - 1
    ensures r == Locate(query, ws, sel, from, info)
  {
    var table := ws[from + 1];
    var found := Lookup(info, table);
    if found.None? {
      return Err(UnknownTable(table));
    }
    if from < sel {
      return Err(Undefined("SELECT after FROM"));
    }
    r := RestateQuery(query, ws, sel, from, found.value);
  }

  /** fetchColumn from the "*" search to the end of the new query. */
  method RestateQuery(query: string, ws: seq<string>, sel: nat, from: nat, schema: Column) returns (r: Result<Plan>)
    requires sel < from < |ws| - 1
    ensures r == Restate(query, ws, sel, from, schema)
  {
    var star := FindWord(ws[sel..from], "*", "*");
    var picked: Result<Column>;
    if star.Some? {
      picked := Ok(schema);
    } else {
      picked := SelectColumns(ws[sel + 1..from], schema);
    }
    if picked.Err? {
      return Err(picked.error);
    }
    var list, changed := ListExpressions(picked.value);
    var text;
    if changed {
      var head := SpacedWords(ws[..sel + 1]);
      var tail := PrefixedWords(ws[from..]);
      text := head + list + tail + ";";
    } else {
      text := query + ";";
    }
    return Ok(Plan(ws[from + 1], schema, picked.value, text));
  }

  /** The inner loop over one result row's cells. */
  method DecodeCells(dl: Dialect, schema: Column, row: Assoc<string>) returns (r: Result<Column>)
    requires ColumnValid(schema)
    ensures r == DecodeRow(dl, schema, row)
  {
    var col: Column := [];
    var k := 0;
    while k < |row|
      invariant 0 <= k <= |row| && DecodeRow(dl, schema, row[..k]) == Ok(col)
    {
      ghost var prefix := row[..k + 1];
      assert prefix[..k] == row[..k] && prefix[k] == row[k];
      var key := ResultKey(row[k].0);
      var found := Lookup(schema, key);
      if found.None? {
        assert DecodeRow(dl, schema, prefix) == Err(Undefined("result column missing from the schema"));
        DecodeRowErrorStays(dl, schema, row, k + 1);
        return Err(Undefined("result column missing from the schema"));
      }
      var d := found.value;
      assert Valid(d) && Fits(d);
      var cell := FromText(dl, row[k].1, TypeStr(dl, d, dl.printFlagsByDefault), d.flags);
      if cell.Err? {
        assert DecodeRow(dl, schema, prefix) == Err(cell.error);
        DecodeRowErrorStays(dl, schema, row, k + 1);
        return Err(cell.error);
      }
      assert DecodeRow(dl, schema, prefix) == Ok(Put(col, key, cell.value));
      col := Put(col, key, cell.value);
      k := k + 1;
    }
    assert row[..k] == row;
    return Ok(col);
  }

  lemma {:induction false} DecodeRowErrorStays(dl: Dialect, schema: Column, row: Assoc<string>, n: nat)
    requires ColumnValid(schema) && 0 < n <= |row|
    requires DecodeRow(dl, schema, row[..n]).Err?
    ensures DecodeRow(dl, schema, row) == DecodeRow(dl, schema, row[..n])
    decreases |row|
  {
    if n < |row| {
      assert row[..|row| - 1][..n] == row[..n];
      DecodeRowErrorStays(dl, schema, row[..|row| - 1], n);
    } else {
      assert row[..n] == row;
    }
  }

  /** The outer loop over the result rows. */
  method DecodeAnswer(dl: Dialect, schema: Column, rows: seq<Assoc<string>>) returns (r: Result<ColumnList>)
    requires ColumnValid(schema)
    ensures r == DecodeRows(dl, schema, rows)
  {
    var list: ColumnList := [];
    var k := 0;
    while k < |rows|
      invariant 0 <= k <= |rows| && DecodeRows(dl, schema, rows[..k]) == Ok(list)
    {
      ghost var prefix := rows[..k + 1];
      assert prefix[..k] == rows[..k] && prefix[k] == rows[k];
      var one := DecodeCells(dl, schema, rows[k]);
      if one.Err? {
        assert DecodeRows(dl, schema, prefix) == Err(one.error);
        DecodeRowsErrorStays(dl, schema, rows, k + 1);
        return Err(one.error);
      }
      assert DecodeRows(dl, schema, prefix) == Ok(list + [one.value]);
      list := list + [one.value];
      k := k + 1;
    }
    assert rows[..k] == rows;
    return Ok(list);
  }

  /** Some answer row has a cell: the inner loop of fetchColumn runs and
      reads the schema reference. */
  predicate HasCell(rows: seq<Assoc<string>>)
  {
    exists i :: 0 <= i < |rows| && rows[i] != []
  }

  /** The loops of fetchColumn once the schema reference dangles (the
      refresh replaced the cached schema): the first cell is undefined
      behaviour, and rows without cells give empty columns. */
  function DanglingRows(rows: seq<Assoc<string>>): (r: Result<ColumnList>)
    ensures r.Ok? ==> |r.value| == |rows| && forall i :: 0 <= i < |r.value| ==> r.value[i] == []
  {
    if rows == [] then Ok([])
    else
      match DanglingRows(rows[..|rows| - 1])
      case Err(e) => Err(e)
      case Ok(prefix) =>
        if rows[|rows| - 1] != [] then Err(Undefined("schema reference invalidated by the refresh"))
        else Ok(prefix + [[]])
  }

  /** With a dangling schema the answer is undefined exactly when some row
      has a cell. */
  lemma {:induction false} DanglingRowsFail(rows: seq<Assoc<string>>)
    ensures DanglingRows(rows).Err? <==> HasCell(rows)
    ensures DanglingRows(rows).Err? ==> DanglingRows(rows) == Err(Undefined("schema reference invalidated by the refresh"))
  {
    if rows != [] {
      var prefix := rows[..|rows| - 1];
      DanglingRowsFail(prefix);
      if HasCell(prefix) {
        var i :| 0 <= i < |prefix| && prefix[i] != [];
        assert rows[i] == prefix[i];
      }
      if HasCell(rows) && rows[|rows| - 1] == [] {
        var i :| 0 <= i < |rows| && rows[i] != [];
        assert prefix[i] == rows[i];
      }
    }
  }

  /** An answer without cells never reads the schema: decoding it against
      any schema gives the same empty columns as with a dangling one. */
  lemma {:induction false} DecodeRowsWithoutCells(dl: Dialect, schema: Column, rows: seq<Assoc<string>>)
    requires ColumnValid(schema) && !HasCell(rows)
    ensures DecodeRows(dl, schema, rows) == DanglingRows(rows)
  {
    if rows != [] {
      var prefix := rows[..|rows| - 1];
      assert !HasCell(prefix) by {
        forall i | 0 <= i < |prefix|
          ensures prefix[i] == []
        {
          assert prefix[i] == rows[i];
        }
      }
      DecodeRowsWithoutCells(dl, schema, prefix);
      assert rows[|rows| - 1] == [];
    }
  }

  /** The outer loop of fetchColumn run with a dangling schema reference. */
  method DecodeDangling(rows: seq<Assoc<string>>) returns (r: Result<ColumnList>)
    ensures r == DanglingRows(rows)
  {
    var list: ColumnList := [];
    var k := 0;
    while k < |rows|
      invariant 0 <= k <= |rows| && DanglingRows(rows[..k]) == Ok(list)
    {
      assert rows[..k + 1][..k] == rows[..k];
      if rows[k] != [] {
        DanglingErrorStays(rows, k + 1);
        return Err(Undefined("schema reference invalidated by the refresh"));
      }
      list := list + [[]];
      k := k + 1;
    }
    assert rows[..k] == rows;
    return Ok(list);
  }

  lemma {:induction false} DanglingErrorStays(rows: seq<Assoc<string>>, n: nat)
    requires 0 < n <= |rows| && DanglingRows(rows[..n]).Err?
    ensures DanglingRows(rows) == DanglingRows(rows[..n])
    decreases |rows|
  {
    if n < |rows| {
      assert rows[..|rows| - 1][..n] == rows[..n];
      DanglingErrorStays(rows[..|rows| - 1], n);
    } else {
      assert rows[..n] == rows;
    }
  }

  lemma {:induction false} DecodeRowsErrorStays(dl: Dialect, schema: Column, rows: seq<Assoc<string>>, n: nat)
    requires ColumnValid(schema) && 0 < n <= |rows|
    requires DecodeRows(dl, schema, rows[..n]).Err?
    ensures DecodeRows(dl, schema, rows) == DecodeRows(dl, schema, rows[..n])
    decreases |rows|
  {
    if n < |rows| {
      assert rows[..|rows| - 1][..n] == rows[..n];
      DecodeRowsErrorStays(dl, schema, rows[..|rows| - 1], n);
    } else {
      assert rows[..n] == rows;
    }
  }

  // ---------------------------------------------------------------
  // Properties

  /** A quote(name) result key is cut back to name. */
  lemma QuoteRoundTrip(name: string)
    ensures ResultKey("quote(" + name + ")") == name
  {
    var key := "quote(" + name + ")";
    assert "quote(" <= key;
    assert key[6..|key| - 1] == name;
  }

  /** Any other key is kept as it is. */
  lemma PlainKey(name: string)
    requires !Contains(name, "quote(")
    ensures ResultKey(name) == name
  {
  }

  /** Every select-list expression of a rewritten query comes back, as a
      result key, to the name of the schema column it selects. */
  lemma ExpressionKeys(col: Column, i: nat)
    requires i < |col| && !Contains(col[i].0, "quote(")
    ensures ResultKey(Expressions(col)[i]) == col[i].0
  {
    if col[i].1.tag == Blob {
      QuoteRoundTrip(col[i].0);
    }
  }

  /** When no selected column is a BLOB the statement sent is the query
      with ";" appended; otherwise it is rebuilt from the words with every
      BLOB column wrapped in quote(). The table is the word after FROM and
      the columns come from its cached schema. */
  lemma RewriteShape(query: string, info: TableInfo)
    requires Rewrite(query, info).Ok?
    ensures var p := Rewrite(query, info).value;
      && Lookup(info, p.table) == Some(p.schema)
      && (forall i :: 0 <= i < |p.selected| ==> p.selected[i] in p.schema)
      && (!HasBlob(p.selected) ==> p.text == query + ";")
      && (forall i :: 0 <= i < |p.selected| && p.selected[i].1.tag == Blob ==>
            Expressions(p.selected)[i] == "quote(" + p.selected[i].0 + ")")
  {
    var ws := Tokens(query);
    assert Keywords(ws).Ok?;
    var pos := Keywords(ws).value;
    assert Rewrite(query, info) == Locate(query, ws, pos.0, pos.1, info);
    var schema := Lookup(info, ws[pos.1 + 1]).value;
    assert Rewrite(query, info) == Restate(query, ws, pos.0, pos.1, schema);
    RestateShape(query, ws, pos.0, pos.1, schema);
  }

  /** The part of RewriteShape that follows the schema lookup. */
  lemma RestateShape(query: string, ws: seq<string>, sel: nat, from: nat, schema: Column)
    requires sel < from < |ws| - 1 && Restate(query, ws, sel, from, schema).Ok?
    ensures var p := Restate(query, ws, sel, from, schema).value;
      && p.table == ws[from + 1] && p.schema == schema
      && (forall i :: 0 <= i < |p.selected| ==> p.selected[i] in p.schema)
      && (!HasBlob(p.selected) ==> p.text == query + ";")
      && (forall i :: 0 <= i < |p.selected| && p.selected[i].1.tag == Blob ==>
            Expressions(p.selected)[i] == "quote(" + p.selected[i].0 + ")")
  {
  }

  /** Without SELECT, without FROM, or with a table missing from the cached
      schema, fetchColumn stops before sending anything. */
  lemma RewriteRejects(query: string, info: TableInfo)
    ensures IndexOf(Tokens(query), "select", "SELECT").None? ==> Rewrite(query, info).Err?
    ensures IndexOf(Tokens(query), "from", "FROM").None? ==> Rewrite(query, info).Err?
    ensures (forall i :: 0 <= i < |Tokens(query)| - 1 && Tokens(query)[i] in {"from", "FROM"} ==>
               Lookup(info, Tokens(query)[i + 1]).None?) ==> Rewrite(query, info).Err?
  {
    var ws := Tokens(query);
    if Keywords(ws).Ok? {
      var pos := Keywords(ws).value;
      assert Rewrite(query, info) == Locate(query, ws, pos.0, pos.1, info);
      assert ws[pos.1] in {"from", "FROM"};
    }
  }
}
