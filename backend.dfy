/** An in-memory relational store standing in for the JDBC connection: named
    tables of rows, each table with an autoincrement counter for its `id`
    primary key. A statement is run from its SQL text together with its
    structured form (table, columns, bound parameters); the connection
    accepts only the text `SqlText` gives for that form. */
module Backend {
  import opened Wrappers
  import SqlText

  /** The scalar values a column can hold. */
  datatype SqlValue = SqlNull | SqlInt(n: int) | SqlReal(r: real) | SqlText(s: string)

  type Row = map<string, SqlValue>

  /** `lastId` is the largest key ever handed out (the AUTOINCREMENT sequence). */
  datatype Table = Table(columns: set<string>, rows: seq<Row>, lastId: nat)

  type Tables = map<string, Table>

  /** The value of a row's `id` column (NULL when it has none). */
  function Key(row: Row): (k: SqlValue) {
    if "id" in row then row["id"] else SqlNull
  }

  predicate HasId(row: Row, id: int) {
    Key(row) == SqlInt(id)
  }

  ghost predicate DistinctKeys(rows: seq<Row>) {
    forall i, j :: 0 <= i < j < |rows| ==> Key(rows[i]) != Key(rows[j])
  }

  /** Every row has exactly the table's columns and a positive key no larger
      than the counter; keys are distinct. */
  ghost predicate TableValid(t: Table) {
    && "id" in t.columns
    && (forall r :: r in t.rows ==> r.Keys == t.columns && Key(r).SqlInt? && 0 < Key(r).n <= t.lastId)
    && DistinctKeys(t.rows)
  }

  ghost predicate TablesValid(ts: Tables) {
    forall n :: n in ts ==> TableValid(ts[n])
  }

  /** The position of the first row whose key is `id`. */
  function FirstWithId(rows: seq<Row>, id: int): (r: Option<nat>)
    ensures r.Some? ==> r.value < |rows| && HasId(rows[r.value], id)
    ensures r.Some? ==> forall j :: 0 <= j < r.value ==> !HasId(rows[j], id)
    ensures r.None? <==> forall j :: 0 <= j < |rows| ==> !HasId(rows[j], id)
  {
    if rows == [] then None
    else if HasId(rows[0], id) then Some(0)
    else
      match FirstWithId(rows[1..], id)
      case None => None
      case Some(k) => Some(k + 1)
  }

  /** `SELECT * FROM t WHERE id = ?`: the first matching row, if any; an
      unknown table is an error. */
  function SelectById(ts: Tables, table: string, id: int): (r: Result<Option<Row>>)
    ensures r.Err? <==> table !in ts
    ensures r.Ok? && r.value.None? ==> forall j :: 0 <= j < |ts[table].rows| ==> !HasId(ts[table].rows[j], id)
    ensures r.Ok? && r.value.Some? ==> exists j :: 0 <= j < |ts[table].rows| && ts[table].rows[j] == r.value.value && HasId(r.value.value, id)
  {
    if table !in ts then Err
    else
      match FirstWithId(ts[table].rows, id)
      case None => Ok(None)
      case Some(k) => Ok(Some(ts[table].rows[k]))
  }

  /** `SELECT * FROM t`: all rows in table order. In a valid table each
      row it returns is also what the keyed SELECT of that row's key finds. */
  function SelectAll(ts: Tables, table: string): (r: Result<seq<Row>>)
    ensures r.Err? <==> table !in ts
    ensures r.Ok? ==> r.value == ts[table].rows
    ensures r.Ok? && TableValid(ts[table]) ==>
              forall k :: 0 <= k < |r.value| ==> Key(r.value[k]).SqlInt? && SelectById(ts, table, Key(r.value[k]).n) == Ok(Some(r.value[k]))
  {
    if table !in ts then Err
    else
      KeysFindRows(ts[table]);
      Ok(ts[table].rows)
  }

  /** In a valid table the first row holding a row's key is that row. */
  lemma KeysFindRows(t: Table)
    ensures TableValid(t) ==> forall k :: 0 <= k < |t.rows| ==> Key(t.rows[k]).SqlInt? && FirstWithId(t.rows, Key(t.rows[k]).n) == Some(k)
  {
    if TableValid(t) {
      forall k | 0 <= k < |t.rows| ensures Key(t.rows[k]).SqlInt? && FirstWithId(t.rows, Key(t.rows[k]).n) == Some(k) {
        assert t.rows[k] in t.rows;
        var f := FirstWithId(t.rows, Key(t.rows[k]).n);
        assert f.Some?;
      }
    }
  }

  /** The row that binds `params` to `cols`, a later binding winning. */
  function RowOf(cols: seq<string>, params: seq<SqlValue>): (m: Row)
    requires |cols| == |params|
    ensures m.Keys == set c | c in cols
  {
    if cols == [] then map[]
    else RowOf(cols[..|cols| - 1], params[..|cols| - 1])[cols[|cols| - 1] := params[|cols| - 1]]
  }

  /** A column listed once is bound to its own parameter. */
  lemma {:induction false} RowOfAt(cols: seq<string>, params: seq<SqlValue>, i: nat)
    requires |cols| == |params| && i < |cols| && cols[i] !in cols[i + 1..]
    ensures RowOf(cols, params)[cols[i]] == params[i]
  {
    var n := |cols| - 1;
    if i < n {
      assert cols[n] in cols[i + 1..];
      assert cols[..n][i] == cols[i] && cols[..n][i + 1..] == cols[i + 1..n];
      assert cols[i + 1..] == cols[i + 1..n] + [cols[n]];
      RowOfAt(cols[..n], params[..n], i);
    }
  }

  /** Binding one more column at the end overrides any earlier binding. */
  lemma RowOfSnoc(cols: seq<string>, params: seq<SqlValue>, c: string, p: SqlValue)
    requires |cols| == |params|
    ensures RowOf(cols + [c], params + [p]) == RowOf(cols, params)[c := p]
  {
    assert (cols + [c])[..|cols|] == cols && (params + [p])[..|cols|] == params;
  }

  /** A column list the backend accepts in an INSERT or an UPDATE: not empty
      (an empty list is a syntax error), known columns, and never the key. */
  predicate ColumnsOk(t: Table, cols: seq<string>) {
    |cols| > 0 && forall c :: c in cols ==> c in t.columns && c != "id"
  }

  datatype InsertAnswer = InsertAnswer(tables: Tables, affected: nat, key: Option<int>)

  /** `INSERT INTO t (cols) VALUES (?, ...)`: appends one row with a fresh key;
      unlisted columns are NULL. Reports one affected row and the key. */
  function Insert(ts: Tables, table: string, cols: seq<string>, params: seq<SqlValue>): (r: Result<InsertAnswer>)
    ensures r.Err? <==> table !in ts || !ColumnsOk(ts[table], cols) || |params| != |cols|
    ensures r.Ok? ==> r.value.affected == 1 && r.value.key == Some(ts[table].lastId + 1)
    ensures r.Ok? ==> r.value.tables.Keys == ts.Keys
    ensures r.Ok? ==> forall n :: n in ts && n != table ==> r.value.tables[n] == ts[n]
    ensures r.Ok? ==> r.value.tables[table] == Table(ts[table].columns, ts[table].rows + [NewRow(ts[table], cols, params)], ts[table].lastId + 1)
    ensures r.Ok? && TableValid(ts[table]) ==> forall j :: 0 <= j < |ts[table].rows| ==> !HasId(ts[table].rows[j], ts[table].lastId + 1)
    ensures r.Ok? && TableValid(ts[table]) ==> SelectById(r.value.tables, table, ts[table].lastId + 1) == Ok(Some(NewRow(ts[table], cols, params)))
  {
    if table !in ts || !ColumnsOk(ts[table], cols) || |params| != |cols| then Err
    else
      var t := ts[table];
      AppendFound(t, NewRow(t, cols, params));
      Ok(InsertAnswer(ts[table := Table(t.columns, t.rows + [NewRow(t, cols, params)], t.lastId + 1)], 1, Some(t.lastId + 1)))
  }

  /** The row an INSERT appends: NULL in every column it does not list, the
      bound values in those it does, and the next key. */
  function NewRow(t: Table, cols: seq<string>, params: seq<SqlValue>): (row: Row)
    requires |cols| == |params|
    ensures row.Keys == t.columns + (set c | c in cols) + {"id"}
    ensures Key(row) == SqlInt(t.lastId + 1)
    ensures forall c :: c in cols && c != "id" ==> row[c] == RowOf(cols, params)[c]
    ensures forall c :: c in t.columns && c !in cols && c != "id" ==> row[c] == SqlNull
  {
    (map c | c in t.columns :: SqlNull) + RowOf(cols, params) + map["id" := SqlInt(t.lastId + 1)]
  }

  /** In a valid table the next key is new, and a row appended under it is
      the one a lookup of that key finds. */
  lemma AppendFound(t: Table, row: Row)
    ensures TableValid(t) ==> forall j :: 0 <= j < |t.rows| ==> !HasId(t.rows[j], t.lastId + 1)
    ensures TableValid(t) && Key(row) == SqlInt(t.lastId + 1) ==> FirstWithId(t.rows + [row], t.lastId + 1) == Some(|t.rows|)
  {
    if TableValid(t) {
      forall j | 0 <= j < |t.rows| ensures !HasId(t.rows[j], t.lastId + 1) {
        assert t.rows[j] in t.rows;
      }
      var rows' := t.rows + [row];
      assert forall j :: 0 <= j < |t.rows| ==> rows'[j] == t.rows[j];
      assert rows'[|t.rows|] == row;
    }
  }

  function CountWhere(rows: seq<Row>, key: SqlValue): (n: nat)
    ensures n <= |rows|
  {
    if rows == [] then 0
    else CountWhere(rows[..|rows| - 1], key) + (if Key(rows[|rows| - 1]) == key then 1 else 0)
  }

  /** `UPDATE t SET c1 = ?, ... WHERE id = ?`: the last parameter is the key
      of the rows to change. Reports how many rows matched. */
  function Update(ts: Tables, table: string, cols: seq<string>, params: seq<SqlValue>): (r: Result<(Tables, nat)>)
    ensures r.Err? <==> table !in ts || !ColumnsOk(ts[table], cols) || |params| != |cols| + 1
    ensures r.Ok? ==> r.value.0.Keys == ts.Keys
    ensures r.Ok? ==> forall n :: n in ts && n != table ==> r.value.0[n] == ts[n]
    ensures r.Ok? ==> |r.value.0[table].rows| == |ts[table].rows|
    ensures r.Ok? ==> r.value.0[table].columns == ts[table].columns && r.value.0[table].lastId == ts[table].lastId
    ensures r.Ok? ==> r.value.0[table].rows == UpdateRows(ts[table].rows, params[|cols|], RowOf(cols, params[..|cols|]))
    ensures r.Ok? ==> forall i :: 0 <= i < |ts[table].rows| ==>
              var (before, after) := (ts[table].rows[i], r.value.0[table].rows[i]);
              Key(after) == Key(before) && after.Keys == before.Keys + (if Key(before) == params[|cols|] then set c | c in cols else {})
  {
    if table !in ts || !ColumnsOk(ts[table], cols) || |params| != |cols| + 1 then Err
    else
      var t := ts[table];
      var key := params[|cols|];
      var rows := UpdateRows(t.rows, key, RowOf(cols, params[..|cols|]));
      Ok((ts[table := Table(t.columns, rows, t.lastId)], CountWhere(t.rows, key)))
  }

  /** The rows after an UPDATE: those with the key get the new column values,
      the others stay as they were. */
  function UpdateRows(rows: seq<Row>, key: SqlValue, set_: Row): (r: seq<Row>)
    ensures |r| == |rows|
    ensures forall i :: 0 <= i < |rows| ==> r[i] == if Key(rows[i]) == key then rows[i] + set_ else rows[i]
    ensures "id" !in set_ ==> forall i :: 0 <= i < |rows| ==> Key(r[i]) == Key(rows[i])
    ensures forall i :: 0 <= i < |rows| ==> r[i].Keys == rows[i].Keys + (if Key(rows[i]) == key then set_.Keys else {})
  {
    seq(|rows|, i requires 0 <= i < |rows| => if Key(rows[i]) == key then rows[i] + set_ else rows[i])
  }

  function WithoutId(rows: seq<Row>, id: int): (r: seq<Row>)
    ensures |r| <= |rows|
  {
    if rows == [] then []
    else
      var n := |rows| - 1;
      WithoutId(rows[..n], id) + (if HasId(rows[n], id) then [] else [rows[n]])
  }

  /** Exactly the rows without the key are kept. */
  lemma {:induction false} WithoutIdMembers(rows: seq<Row>, id: int)
    ensures forall x :: x in WithoutId(rows, id) <==> x in rows && !HasId(x, id)
  {
    if rows != [] {
      var n := |rows| - 1;
      assert rows == rows[..n] + [rows[n]];
      WithoutIdMembers(rows[..n], id);
    }
  }

  /** When no row carries the key, nothing is removed. */
  lemma {:induction false} WithoutIdNone(rows: seq<Row>, id: int)
    ensures (forall j :: 0 <= j < |rows| ==> !HasId(rows[j], id)) ==> WithoutId(rows, id) == rows
  {
    if rows != [] && forall j :: 0 <= j < |rows| ==> !HasId(rows[j], id) {
      var n := |rows| - 1;
      var p := rows[..n];
      forall j | 0 <= j < |p| ensures !HasId(p[j], id) {
        assert p[j] == rows[j];
      }
      WithoutIdNone(p, id);
      assert rows == p + [rows[n]];
    }
  }

  /** Removing a key that row `j` carries removes at least one row. */
  lemma {:induction false} WithoutIdShrinksAt(rows: seq<Row>, id: int, j: nat)
    requires j < |rows| && HasId(rows[j], id)
    ensures |WithoutId(rows, id)| < |rows|
  {
    var n := |rows| - 1;
    if j < n {
      assert rows[..n][j] == rows[j];
      WithoutIdShrinksAt(rows[..n], id, j);
    }
  }

  /** Removing a key that some row carries removes at least one row. */
  lemma WithoutIdShrinks(rows: seq<Row>, id: int)
    ensures (exists j :: 0 <= j < |rows| && HasId(rows[j], id)) ==> |WithoutId(rows, id)| < |rows|
  {
    if exists j :: 0 <= j < |rows| && HasId(rows[j], id) {
      var j :| 0 <= j < |rows| && HasId(rows[j], id);
      WithoutIdShrinksAt(rows, id, j);
    }
  }

  /** `DELETE FROM t WHERE id = ?`: drops the rows with that key and reports
      how many there were. */
  function Delete(ts: Tables, table: string, id: int): (r: Result<(Tables, nat)>)
    ensures r.Err? <==> table !in ts
    ensures r.Ok? ==> r.value.0.Keys == ts.Keys
    ensures r.Ok? ==> forall n :: n in ts && n != table ==> r.value.0[n] == ts[n]
    ensures r.Ok? ==> forall x :: x in r.value.0[table].rows <==> x in ts[table].rows && !HasId(x, id)
    ensures r.Ok? ==> (r.value.1 > 0 <==> exists j :: 0 <= j < |ts[table].rows| && HasId(ts[table].rows[j], id))
    ensures r.Ok? && r.value.1 == 0 ==> r.value.0 == ts
  {
    if table !in ts then Err
    else
      var t := ts[table];
      var rows := WithoutId(t.rows, id);
      WithoutIdMembers(t.rows, id);
      WithoutIdShrinks(t.rows, id);
      WithoutIdNone(t.rows, id);
      Ok((ts[table := Table(t.columns, rows, t.lastId)], |t.rows| - |rows|))
  }

  /** The JDBC connection: a mutable store that executes statements. Each
      method takes the statement's text and requires it to be the text of
      that statement's shape. */
  class Connection {
    var tables: Tables

    ghost predicate Valid()
      reads this
    {
      TablesValid(tables)
    }

    constructor (tables: Tables)
      requires TablesValid(tables)
      ensures Valid() && this.tables == tables
    {
      this.tables := tables;
    }

    method QueryById(sql: string, table: string, id: int) returns (r: Result<Option<Row>>)
      requires sql == SqlText.SelectByIdSql(table)
      ensures r == SelectById(tables, table, id)
      ensures r.Err? <==> table !in tables
      ensures r.Ok? && r.value.Some? ==> r.value.value in tables[table].rows && HasId(r.value.value, id)
      ensures Valid() && r.Ok? && r.value.None? ==> forall row :: row in tables[table].rows ==> !HasId(row, id)
    {
      r := SelectById(tables, table, id);
    }

    method QueryAll(sql: string, table: string) returns (r: Result<seq<Row>>)
      requires sql == SqlText.SelectAllSql(table)
      ensures r == SelectAll(tables, table)
      ensures r.Err? <==> table !in tables
      ensures Valid() && r.Ok? ==> forall k :: 0 <= k < |r.value| ==>
                r.value[k] in tables[table].rows && Key(r.value[k]).SqlInt? && SelectById(tables, table, Key(r.value[k]).n) == Ok(Some(r.value[k]))
    {
      r := SelectAll(tables, table);
    }

    method ExecuteInsert(sql: string, table: string, cols: seq<string>, params: seq<SqlValue>) returns (r: Result<(nat, Option<int>)>)
      requires Valid() && sql == SqlText.InsertSql(table, cols)
      modifies this
      ensures Valid()
      ensures var a := Insert(old(tables), table, cols, params);
              if a.Err? then r.Err? && tables == old(tables)
              else r == Ok((a.value.affected, a.value.key)) && tables == a.value.tables
    {
      var a := Insert(tables, table, cols, params);
      if a.Err? {
        r := Err;
      } else {
        InsertKeepsValid(tables, table, cols, params);
        r := Ok((a.value.affected, a.value.key));
        tables := a.value.tables;
      }
    }

    method ExecuteUpdate(sql: string, table: string, cols: seq<string>, params: seq<SqlValue>) returns (r: Result<nat>)
      requires Valid() && sql == SqlText.UpdateSql(table, cols)
      modifies this
      ensures Valid()
      ensures var a := Update(old(tables), table, cols, params);
              if a.Err? then r.Err? && tables == old(tables)
              else r == Ok(a.value.1) && tables == a.value.0
    {
      var a := Update(tables, table, cols, params);
      if a.Err? {
        r := Err;
      } else {
        UpdateKeepsValid(tables, table, cols, params);
        r := Ok(a.value.1);
        tables := a.value.0;
      }
    }

    method ExecuteDelete(sql: string, table: string, id: int) returns (r: Result<nat>)
      requires Valid() && sql == SqlText.DeleteSql(table)
      modifies this
      ensures Valid()
      ensures var a := Delete(old(tables), table, id);
              if a.Err? then r.Err? && tables == old(tables)
              else r == Ok(a.value.1) && tables == a.value.0
    {
      var a := Delete(tables, table, id);
      if a.Err? {
        r := Err;
      } else {
        DeleteKeepsValid(tables, table, id);
        r := Ok(a.value.1);
        tables := a.value.0;
      }
    }
  }

  lemma InsertKeepsValid(ts: Tables, table: string, cols: seq<string>, params: seq<SqlValue>)
    requires TablesValid(ts) && Insert(ts, table, cols, params).Ok?
    ensures TablesValid(Insert(ts, table, cols, params).value.tables)
  {
    var t := ts[table];
    var row := NewRow(t, cols, params);
    assert row.Keys == t.columns;
    AppendKeepsValid(t, row);
  }

  /** Appending a row with the table's columns and key counter+1, and
      moving the counter there, keeps a table well formed. */
  lemma AppendKeepsValid(t: Table, row: Row)
    requires TableValid(t) && row.Keys == t.columns && Key(row) == SqlInt(t.lastId + 1)
    ensures TableValid(Table(t.columns, t.rows + [row], t.lastId + 1))
  {
    var t' := Table(t.columns, t.rows + [row], t.lastId + 1);
    forall i, j | 0 <= i < j < |t'.rows| ensures Key(t'.rows[i]) != Key(t'.rows[j]) {
      assert t'.rows[i] == t.rows[i] && t.rows[i] in t.rows;
      if j < |t.rows| {
        assert t'.rows[j] == t.rows[j];
      }
    }
  }

  lemma UpdateKeepsValid(ts: Tables, table: string, cols: seq<string>, params: seq<SqlValue>)
    requires TablesValid(ts) && Update(ts, table, cols, params).Ok?
    ensures TablesValid(Update(ts, table, cols, params).value.0)
  {
    var set_ := RowOf(cols, params[..|cols|]);
    assert "id" !in set_ && set_.Keys <= ts[table].columns;
    UpdateRowsValid(ts[table], params[|cols|], set_);
  }

  /** Setting non-key columns keeps every key and every row's columns. */
  lemma UpdateRowsValid(t: Table, key: SqlValue, set_: Row)
    requires TableValid(t) && "id" !in set_ && set_.Keys <= t.columns
    ensures TableValid(Table(t.columns, UpdateRows(t.rows, key, set_), t.lastId))
  {
    var rows' := UpdateRows(t.rows, key, set_);
    forall i | 0 <= i < |t.rows|
      ensures rows'[i].Keys == t.columns && Key(rows'[i]) == Key(t.rows[i])
    {
      assert t.rows[i] in t.rows;
    }
    forall r | r in rows' ensures r.Keys == t.columns && Key(r).SqlInt? && 0 < Key(r).n <= t.lastId {
      var i :| 0 <= i < |rows'| && rows'[i] == r;
      assert t.rows[i] in t.rows;
    }
  }

  lemma DeleteKeepsValid(ts: Tables, table: string, id: int)
    requires TablesValid(ts) && Delete(ts, table, id).Ok?
    ensures TablesValid(Delete(ts, table, id).value.0)
  {
    WithoutIdKeepsDistinct(ts[table].rows, id);
  }

  lemma {:induction false} WithoutIdKeepsDistinct(rows: seq<Row>, id: int)
    requires DistinctKeys(rows)
    ensures DistinctKeys(WithoutId(rows, id))
  {
    if rows != [] {
      var n := |rows| - 1;
      var p := rows[..n];
      assert DistinctKeys(p) by {
        forall i, j | 0 <= i < j < |p| ensures Key(p[i]) != Key(p[j]) {
          assert p[i] == rows[i] && p[j] == rows[j];
        }
      }
      WithoutIdKeepsDistinct(p, id);
      WithoutIdMembers(p, id);
      var w := WithoutId(p, id);
      if !HasId(rows[n], id) {
        forall i | 0 <= i < |w| ensures Key(w[i]) != Key(rows[n]) {
          assert w[i] in w;
          var j :| 0 <= j < |p| && p[j] == w[i];
          assert p[j] == rows[j];
        }
        var r := w + [rows[n]];
        forall i, j | 0 <= i < j < |r| ensures Key(r[i]) != Key(r[j]) {
          if j < |w| {
            assert r[i] == w[i] && r[j] == w[j];
          }
        }
      }
    }
  }
}
