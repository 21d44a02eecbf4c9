/** The statement text and bound values that `insertEntity` and
    `updateEntity` build for an instance: each loop is proved to produce
    `InsertSql`/`UpdateSql` of the non-id columns and `ColumnValues` of a
    snapshot of the instance. */
module Statements {
  import opened Wrappers
  import opened Metadata
  import opened Mapping
  import SqlText

  /** Every prefix of a column list that can be read can be read. */
  lemma {:induction false} ColumnValuesPrefix(fs: seq<FieldDecl>, s: Snapshot, k: nat)
    requires k <= |fs| && ColumnValues(fs, s).Ok?
    ensures ColumnValues(fs[..k], s).Ok?
    decreases |fs|
  {
    if k < |fs| {
      var n := |fs| - 1;
      assert fs[..n][..k] == fs[..k];
      ColumnValuesPrefix(fs[..n], s, k);
    } else {
      assert fs[..k] == fs;
    }
  }

  /** One more field of `insertEntity` and `updateEntity`: the id is
      skipped, any other field adds its column and its value. */
  lemma ColumnStep(fs: seq<FieldDecl>, s: Snapshot, i: nat, cols: seq<string>, values: seq<Value>)
    requires i < |fs| && cols == NonIdColumns(fs[..i]) && ColumnValues(fs[..i], s) == Ok(values)
    ensures fs[i].name == "id" ==> NonIdColumns(fs[..i + 1]) == cols && ColumnValues(fs[..i + 1], s) == Ok(values)
    ensures fs[i].name != "id" ==>
              && NonIdColumns(fs[..i + 1]) == cols + [fs[i].name]
              && ColumnValues(fs[..i + 1], s) ==
                   if ColumnValue(s, fs[i]).Ok? then Ok(values + [ColumnValue(s, fs[i]).value]) else Err
  {
    assert fs[..i + 1][..i] == fs[..i];
  }

  /** A field whose value cannot be read makes the whole list fail. */
  lemma ColumnFailsAt(fs: seq<FieldDecl>, s: Snapshot, i: nat)
    requires i < |fs| && ColumnValues(fs[..i + 1], s).Err?
    ensures ColumnValues(fs, s).Err?
  {
    if ColumnValues(fs, s).Ok? {
      ColumnValuesPrefix(fs, s, i + 1);
    }
  }

  /** The value `insertEntity` and `updateEntity` bind for field `i`
      (its own value, or a referenced instance's id), appended to the
      values so far; failing exactly when the whole list fails there. */
  method AddColumnValue(s: Snapshot, fs: seq<FieldDecl>, i: nat, ghost cols: seq<string>, values: seq<Value>)
    returns (r: Result<seq<Value>>)
    requires i < |fs| && fs[i].name != "id"
    requires cols == NonIdColumns(fs[..i]) && ColumnValues(fs[..i], s) == Ok(values)
    ensures r.Err? ==> ColumnValues(fs, s).Err?
    ensures r.Ok? ==> NonIdColumns(fs[..i + 1]) == cols + [fs[i].name] && ColumnValues(fs[..i + 1], s) == r
  {
    var value := ColumnValue(s, fs[i]);
    ColumnStep(fs, s, i, cols, values);
    if value.Err? {
      ColumnFailsAt(fs, s, i);
      return Err;
    }
    r := Ok(values + [value.value]);
  }

  /** One step of the `insertEntity` loop's text: a separator unless
      this is the first column, then the quoted column name and one `?`. */
  method AppendInsertColumn(columns: string, placeholders: string, first: bool, ghost cols: seq<string>, name: string)
    returns (columns': string, placeholders': string)
    requires first <==> |cols| == 0
    requires columns == SqlText.ColumnList(cols) && placeholders == SqlText.PlaceholderList(|cols|)
    ensures columns' == SqlText.ColumnList(cols + [name])
    ensures placeholders' == SqlText.PlaceholderList(|cols| + 1)
  {
    columns', placeholders' := columns, placeholders;
    if !first {
      columns' := columns' + ", ";
      placeholders' := placeholders' + ", ";
    }
    columns' := columns' + SqlText.Quote(name);
    placeholders' := placeholders' + "?";
    SqlText.ColumnListSnoc(cols, name);
    SqlText.PlaceholderListSnoc(|cols|);
  }

  /** What `insertEntity` has built after the first `i` fields: the
      column list and placeholders of their non-id columns and their
      values. */
  ghost predicate InsertPrefix(s: Snapshot, fs: seq<FieldDecl>, i: nat, cols: seq<string>, values: seq<Value>,
                               columns: string, placeholders: string, first: bool)
  {
    && i <= |fs|
    && cols == NonIdColumns(fs[..i])
    && ColumnValues(fs[..i], s) == Ok(values)
    && (first <==> |cols| == 0)
    && columns == SqlText.ColumnList(cols)
    && placeholders == SqlText.PlaceholderList(|cols|)
  }

  /** Nothing is built before the first field. */
  lemma InsertPrefixStart(s: Snapshot, fs: seq<FieldDecl>)
    ensures InsertPrefix(s, fs, 0, [], [], "", "", true)
  {
    assert fs[..0] == [];
  }

  /** After the last field the text is that of all non-id columns. */
  lemma InsertPrefixDone(s: Snapshot, fs: seq<FieldDecl>, cols: seq<string>, values: seq<Value>,
                         columns: string, placeholders: string, first: bool)
    requires InsertPrefix(s, fs, |fs|, cols, values, columns, placeholders, first)
    ensures ColumnValues(fs, s) == Ok(values)
    ensures columns == SqlText.ColumnList(NonIdColumns(fs))
    ensures placeholders == SqlText.PlaceholderList(|NonIdColumns(fs)|)
  {
    assert fs[..|fs|] == fs;
  }

  /** The loop of `insertEntity`: over the declared fields but `id`, it
      appends `"name"` to the column list and `?` to the value list
      (comma-separated), and collects each value, a reference replaced by
      the referenced instance's id. It fails exactly when some value
      cannot be read; the text is then `InsertSql` of the non-id columns
      and the values are `ColumnValues`. */
  method BuildInsert(s: Snapshot, table: string, fs: seq<FieldDecl>) returns (r: Result<(string, seq<Value>)>)
    ensures var vals := ColumnValues(fs, s);
            && (r.Ok? <==> vals.Ok?)
            && (r.Ok? ==> r.value == (SqlText.InsertSql(table, NonIdColumns(fs)), vals.value))
  {
    var values: seq<Value> := [];
    ghost var cols: seq<string> := [];
    var columns := "";
    var placeholders := "";
    var first := true;
    var i := 0;
    InsertPrefixStart(s, fs);
    while i < |fs|
      invariant InsertPrefix(s, fs, i, cols, values, columns, placeholders, first)
    {
      var next, columns', placeholders', first';
      ghost var cols';
      next, columns', placeholders', first', cols' := InsertStep(s, fs, i, cols, values, columns, placeholders, first);
      if next.Err? {
        return Err;
      }
      values, columns, placeholders, first, cols := next.value, columns', placeholders', first', cols';
      i := i + 1;
    }
    InsertPrefixDone(s, fs, cols, values, columns, placeholders, first);
    r := Ok(("INSERT INTO " + table + " (" + columns + ") VALUES (" + placeholders + ")", values));
  }

  /** One turn of the `insertEntity` loop at field `i`: nothing for `id`;
      otherwise the quoted name and a `?`, each after a separator unless
      it is the first column, and the field's value appended. */
  method InsertStep(s: Snapshot, fs: seq<FieldDecl>, i: nat, ghost cols: seq<string>, values: seq<Value>,
                    columns: string, placeholders: string, first: bool)
    returns (r: Result<seq<Value>>, columns': string, placeholders': string, first': bool, ghost cols': seq<string>)
    requires i < |fs| && InsertPrefix(s, fs, i, cols, values, columns, placeholders, first)
    ensures r.Err? ==> ColumnValues(fs, s).Err?
    ensures r.Ok? ==> InsertPrefix(s, fs, i + 1, cols', r.value, columns', placeholders', first')
  {
    var f := fs[i];
    r, columns', placeholders', first', cols' := Ok(values), columns, placeholders, first, cols;
    if f.name != "id" {
      columns', placeholders' := AppendInsertColumn(columns, placeholders, first, cols, f.name);
      first' := false;
      r := AddColumnValue(s, fs, i, cols, values);
      cols' := cols + [f.name];
    } else {
      ColumnStep(fs, s, i, cols, values);
    }
  }

  /** One step of the `updateEntity` loop's text: a separator unless
      this is the first column, then `"name" = ?`. */
  method AppendAssignment(assignments: string, first: bool, ghost cols: seq<string>, name: string)
    returns (assignments': string)
    requires first <==> |cols| == 0
    requires assignments == SqlText.AssignmentList(cols)
    ensures assignments' == SqlText.AssignmentList(cols + [name])
  {
    assignments' := assignments;
    if !first {
      assignments' := assignments' + ", ";
    }
    assignments' := assignments' + (SqlText.Quote(name) + " = ?");
    SqlText.AssignmentListSnoc(cols, name);
  }

  /** What `updateEntity` has built after the first `i` fields: the
      assignments of their non-id columns and their values. */
  ghost predicate UpdatePrefix(s: Snapshot, fs: seq<FieldDecl>, i: nat, cols: seq<string>, values: seq<Value>,
                               assignments: string, first: bool)
  {
    && i <= |fs|
    && cols == NonIdColumns(fs[..i])
    && ColumnValues(fs[..i], s) == Ok(values)
    && (first <==> |cols| == 0)
    && assignments == SqlText.AssignmentList(cols)
  }

  /** Nothing is built before the first field. */
  lemma UpdatePrefixStart(s: Snapshot, fs: seq<FieldDecl>)
    ensures UpdatePrefix(s, fs, 0, [], [], "", true)
  {
    assert fs[..0] == [];
  }

  /** After the last field the text is that of all non-id columns. */
  lemma UpdatePrefixDone(s: Snapshot, fs: seq<FieldDecl>, cols: seq<string>, values: seq<Value>,
                         assignments: string, first: bool)
    requires UpdatePrefix(s, fs, |fs|, cols, values, assignments, first)
    ensures ColumnValues(fs, s) == Ok(values)
    ensures assignments == SqlText.AssignmentList(NonIdColumns(fs))
  {
    assert fs[..|fs|] == fs;
  }

  /** The loop of `updateEntity`: over the declared fields but `id`, it
      appends `"name" = ?` (comma-separated) and collects each value, a
      reference replaced by the referenced instance's id. It fails exactly
      when some value cannot be read; the text is then `UpdateSql` of the
      non-id columns and the values are `ColumnValues`. */
  method BuildUpdate(s: Snapshot, table: string, fs: seq<FieldDecl>) returns (r: Result<(string, seq<Value>)>)
    ensures var vals := ColumnValues(fs, s);
            && (r.Ok? <==> vals.Ok?)
            && (r.Ok? ==> r.value == (SqlText.UpdateSql(table, NonIdColumns(fs)), vals.value))
  {
    var values: seq<Value> := [];
    ghost var cols: seq<string> := [];
    var assignments := "";
    var first := true;
    var i := 0;
    UpdatePrefixStart(s, fs);
    while i < |fs|
      invariant UpdatePrefix(s, fs, i, cols, values, assignments, first)
    {
      var next, assignments', first';
      ghost var cols';
      next, assignments', first', cols' := UpdateStep(s, fs, i, cols, values, assignments, first);
      if next.Err? {
        return Err;
      }
      values, assignments, first, cols := next.value, assignments', first', cols';
      i := i + 1;
    }
    UpdatePrefixDone(s, fs, cols, values, assignments, first);
    r := Ok(("UPDATE " + table + " SET " + assignments + " WHERE id = ?", values));
  }

  /** One turn of the `updateEntity` loop at field `i`: nothing for `id`;
      otherwise `"name" = ?` after a separator unless it is the first
      assignment, and the field's value appended. */
  method UpdateStep(s: Snapshot, fs: seq<FieldDecl>, i: nat, ghost cols: seq<string>, values: seq<Value>,
                    assignments: string, first: bool)
    returns (r: Result<seq<Value>>, assignments': string, first': bool, ghost cols': seq<string>)
    requires i < |fs| && UpdatePrefix(s, fs, i, cols, values, assignments, first)
    ensures r.Err? ==> ColumnValues(fs, s).Err?
    ensures r.Ok? ==> UpdatePrefix(s, fs, i + 1, cols', r.value, assignments', first')
  {
    var f := fs[i];
    r, assignments', first', cols' := Ok(values), assignments, first, cols;
    if f.name != "id" {
      assignments' := AppendAssignment(assignments, first, cols, f.name);
      first' := false;
      r := AddColumnValue(s, fs, i, cols, values);
      cols' := cols + [f.name];
    } else {
      ColumnStep(fs, s, i, cols, values);
    }
  }
}
