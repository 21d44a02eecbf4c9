/** Properties of `save` and `delete` as the Mapping module defines them. */
module SaveFacts {
  import opened Wrappers
  import opened Metadata
  import opened Backend
  import opened Mapping
  import opened LoadFacts

  /** A null reference field makes `save` fail: `getEntityId(null)` throws
      before any row is written. */
  lemma NullReferenceFailsSave(reg: Registry, ts: Tables, e: Entity, i: nat)
    requires e.cls in reg && i < |reg[e.cls].fields| && IsReferenceField(reg[e.cls].fields[i].kind)
    requires reg[e.cls].fields[i].name in e.fields && e.fields[reg[e.cls].fields[i].name] == Null
    ensures SaveSpec(reg, ts, Snap(reg, e)).Err?
  {
    var s := Snap(reg, e);
    assert !RefOk(s, reg[e.cls].fields[i]);
  }

  /** A non-id field is one of the INSERT/UPDATE columns. */
  lemma {:induction false} NonIdColumnsHas(fs: seq<FieldDecl>, i: nat)
    requires i < |fs| && fs[i].name != "id"
    ensures fs[i].name in NonIdColumns(fs)
  {
    var n := |fs| - 1;
    if i < n {
      NonIdColumnsHas(fs[..n], i);
      assert fs[..n][i] == fs[i];
    }
  }

  /** Every INSERT/UPDATE column is a declared field. */
  lemma {:induction false} NonIdColumnsAreFields(fs: seq<FieldDecl>)
    ensures forall c :: c in NonIdColumns(fs) ==> exists i :: 0 <= i < |fs| && fs[i].name == c
  {
    if fs != [] {
      var n := |fs| - 1;
      NonIdColumnsAreFields(fs[..n]);
      forall c | c in NonIdColumns(fs) ensures exists i :: 0 <= i < |fs| && fs[i].name == c {
        if c in NonIdColumns(fs[..n]) {
          var i :| 0 <= i < n && fs[..n][i].name == c;
          assert fs[i] == fs[..n][i];
        } else {
          assert fs[n].name == c;
        }
      }
    }
  }

  /** Binding one more value binds the rest as before. */
  lemma BindAllSnoc(vs: seq<Value>, v: Value)
    requires BindAll(vs + [v]).Ok?
    ensures BindAll(vs).Ok? && BindValue(v).Ok?
    ensures BindAll(vs + [v]).value == BindAll(vs).value + [BindValue(v).value]
  {
    assert (vs + [v])[..|vs|] == vs;
  }

  /** The column values of a field list, split at its last field. */
  lemma ColumnValuesSnoc(fs: seq<FieldDecl>, s: Snapshot)
    requires fs != [] && ColumnValues(fs, s).Ok?
    ensures var n := |fs| - 1;
            var vs := ColumnValues(fs[..n], s);
            && vs.Ok?
            && (fs[n].name == "id" ==>
                  ColumnValues(fs, s).value == vs.value && NonIdColumns(fs) == NonIdColumns(fs[..n]))
            && (fs[n].name != "id" ==>
                  && ColumnValue(s, fs[n]).Ok?
                  && ColumnValues(fs, s).value == vs.value + [ColumnValue(s, fs[n]).value]
                  && NonIdColumns(fs) == NonIdColumns(fs[..n]) + [fs[n].name])
  {
  }

  /** A name listed at `k` and not after stays so when names other than
      it are appended. */
  lemma IndexAfterAppend(cs: seq<string>, extra: seq<string>, name: string, k: nat)
    requires k < |cs| && cs[k] == name && name !in cs[k + 1..] && name !in extra
    ensures (cs + extra)[k] == name && name !in (cs + extra)[k + 1..]
  {
    assert (cs + extra)[k + 1..] == cs[k + 1..] + extra;
  }

  /** The position of a non-id field among the INSERT/UPDATE columns: the
      column is listed there and not after, and the value bound there is
      that field's. */
  lemma {:induction false} ColumnIndex(fs: seq<FieldDecl>, s: Snapshot, i: nat) returns (k: nat)
    requires DistinctNames(fs) && ColumnValues(fs, s).Ok?
    requires i < |fs| && fs[i].name != "id"
    ensures k < |NonIdColumns(fs)| && NonIdColumns(fs)[k] == fs[i].name && fs[i].name !in NonIdColumns(fs)[k + 1..]
    ensures ColumnValue(s, fs[i]).Ok? && ColumnValues(fs, s).value[k] == ColumnValue(s, fs[i]).value
  {
    var n := |fs| - 1;
    var init := fs[..n];
    ColumnValuesSnoc(fs, s);
    var ci := NonIdColumns(init);
    if i == n {
      k := |ci|;
      assert NonIdColumns(fs)[k + 1..] == [];
    } else {
      DistinctPrefix(fs, n);
      assert init[i] == fs[i];
      k := ColumnIndex(init, s, i);
      var extra := if fs[n].name == "id" then [] else [fs[n].name];
      assert fs[i].name != fs[n].name;
      IndexAfterAppend(ci, extra, fs[i].name, k);
    }
  }

  /** The statement binds each non-id field's column to that field's bound
      value: its own value, or a referenced instance's id. */
  lemma BoundColumn(fs: seq<FieldDecl>, s: Snapshot, i: nat)
    requires DistinctNames(fs) && ColumnValues(fs, s).Ok? && BindAll(ColumnValues(fs, s).value).Ok?
    requires i < |fs| && fs[i].name != "id"
    ensures fs[i].name in NonIdColumns(fs)
    ensures ColumnValue(s, fs[i]).Ok? && BindValue(ColumnValue(s, fs[i]).value).Ok?
    ensures RowOf(NonIdColumns(fs), BindAll(ColumnValues(fs, s).value).value)[fs[i].name]
              == BindValue(ColumnValue(s, fs[i]).value).value
  {
    var k := ColumnIndex(fs, s, i);
    var vals := ColumnValues(fs, s).value;
    var params := BindAll(vals).value;
    assert BindValue(vals[k]) == Ok(params[k]);
    Backend.RowOfAt(NonIdColumns(fs), params, k);
  }

  /** A successful save of a new entity (id 0), spelled out: one INSERT of
      the non-id columns with their bound values, and the generated key
      written into `id`. */
  lemma SaveInsertShape(reg: Registry, ts: Tables, s: Snapshot)
    requires s.selfId == Ok(0) && SaveSpec(reg, ts, s).Ok?
    ensures s.cls in reg && TableOf(reg[s.cls]) in ts
    ensures ColumnValues(reg[s.cls].fields, s).Ok? && BindAll(ColumnValues(reg[s.cls].fields, s).value).Ok?
    ensures var fs := reg[s.cls].fields;
            var T := TableOf(reg[s.cls]);
            var t := ts[T];
            var cols := NonIdColumns(fs);
            var params := BindAll(ColumnValues(fs, s).value).value;
            && ColumnsOk(t, cols) && |params| == |cols|
            && SaveSpec(reg, ts, s).value ==
                 Saved(ts[T := Table(t.columns, t.rows + [NewRow(t, cols, params)], t.lastId + 1)], s.fields["id" := LongV(t.lastId + 1)])
  {
    var fs := reg[s.cls].fields;
    var T := TableOf(reg[s.cls]);
    assert InsertSpec(ts, T, fs, s).Ok?;
    RunInsertShape(ts, T, NonIdColumns(fs), ColumnValues(fs, s).value);
  }

  /** A successful `executeInsert`, spelled out: one row appended under the
      next key. */
  lemma RunInsertShape(ts: Tables, T: string, cols: seq<string>, vals: seq<Value>)
    requires RunInsert(ts, T, cols, vals).Ok?
    ensures T in ts && BindAll(vals).Ok?
    ensures var t := ts[T];
            var params := BindAll(vals).value;
            && ColumnsOk(t, cols) && |params| == |cols|
            && RunInsert(ts, T, cols, vals).value ==
                 (ts[T := Table(t.columns, t.rows + [NewRow(t, cols, params)], t.lastId + 1)], t.lastId + 1)
  {
    var t := ts[T];
    var params := BindAll(vals).value;
    var a := Insert(ts, T, cols, params).value;
    assert a.tables == ts[T := Table(t.columns, t.rows + [NewRow(t, cols, params)], t.lastId + 1)];
  }

  /** A successful save of an entity with id `n` != 0, spelled out: one
      UPDATE of the non-id columns of the rows keyed `n`. */
  lemma SaveUpdateShape(reg: Registry, ts: Tables, s: Snapshot)
    requires s.selfId.Ok? && s.selfId.value != 0 && SaveSpec(reg, ts, s).Ok?
    ensures s.cls in reg && TableOf(reg[s.cls]) in ts
    ensures ColumnValues(reg[s.cls].fields, s).Ok? && BindAll(ColumnValues(reg[s.cls].fields, s).value).Ok?
    ensures var fs := reg[s.cls].fields;
            var T := TableOf(reg[s.cls]);
            var t := ts[T];
            var cols := NonIdColumns(fs);
            var params := BindAll(ColumnValues(fs, s).value).value;
            && ColumnsOk(t, cols) && |params| == |cols|
            && SaveSpec(reg, ts, s).value ==
                 Saved(ts[T := Table(t.columns, UpdateRows(t.rows, SqlInt(s.selfId.value), RowOf(cols, params)), t.lastId)], s.fields)
  {
    var fs := reg[s.cls].fields;
    var T := TableOf(reg[s.cls]);
    var t := ts[T];
    var cols := NonIdColumns(fs);
    var vals := ColumnValues(fs, s).value;
    BindAllSnoc(vals, LongV(s.selfId.value));
    var params := BindAll(vals + [LongV(s.selfId.value)]).value;
    assert params[..|cols|] == BindAll(vals).value;
    var u := Update(ts, T, cols, params).value;
    assert RunUpdate(ts, T, cols, vals + [LongV(s.selfId.value)]) == Ok(u.0);
    assert UpdateSpec(ts, T, fs, s, s.selfId.value) == Ok(u.0);
    assert u.0 == ts[T := Table(t.columns, UpdateRows(t.rows, SqlInt(s.selfId.value), RowOf(cols, params[..|cols|])), t.lastId)];
  }

  /** Saving a new entity (id 0) appends exactly one row under the next key,
      a key no existing row has, writes that key into the entity's `id`, and
      touches no other table. */
  lemma SaveInserts(reg: Registry, ts: Tables, s: Snapshot)
    requires TablesValid(ts) && s.selfId == Ok(0) && SaveSpec(reg, ts, s).Ok?
    ensures s.cls in reg && TableOf(reg[s.cls]) in ts
    ensures var t := ts[TableOf(reg[s.cls])];
            var t' := SaveSpec(reg, ts, s).value.tables[TableOf(reg[s.cls])];
            && t'.rows[..|t.rows|] == t.rows && |t'.rows| == |t.rows| + 1
            && Key(t'.rows[|t.rows|]) == SqlInt(t.lastId + 1)
            && (forall j :: 0 <= j < |t.rows| ==> !HasId(t.rows[j], t.lastId + 1))
            && SaveSpec(reg, ts, s).value.fields == s.fields["id" := LongV(t.lastId + 1)]
    ensures SaveSpec(reg, ts, s).value.tables.Keys == ts.Keys
    ensures forall n :: n in ts && n != TableOf(reg[s.cls]) ==> SaveSpec(reg, ts, s).value.tables[n] == ts[n]
    ensures TablesValid(SaveSpec(reg, ts, s).value.tables)
  {
    SaveInsertShape(reg, ts, s);
    var fs := reg[s.cls].fields;
    var T := TableOf(reg[s.cls]);
    var t := ts[T];
    var params := BindAll(ColumnValues(fs, s).value).value;
    var row := NewRow(t, NonIdColumns(fs), params);
    AppendFound(t, row);
    assert (t.rows + [row])[..|t.rows|] == t.rows;
    InsertKeepsValid(ts, T, NonIdColumns(fs), params);
  }

  /** The appended row holds each non-id field's bound value. */
  lemma InsertedColumn(fs: seq<FieldDecl>, s: Snapshot, t: Table, i: nat)
    requires DistinctNames(fs) && ColumnValues(fs, s).Ok? && BindAll(ColumnValues(fs, s).value).Ok?
    requires i < |fs| && fs[i].name != "id"
    ensures var row := NewRow(t, NonIdColumns(fs), BindAll(ColumnValues(fs, s).value).value);
            && fs[i].name in row && ColumnValue(s, fs[i]).Ok? && BindValue(ColumnValue(s, fs[i]).value).Ok?
            && row[fs[i].name] == BindValue(ColumnValue(s, fs[i]).value).value
  {
    BoundColumn(fs, s, i);
  }

  /** Each column of the inserted row holds the field's bound value; a
      non-null reference column holds the referenced instance's id. */
  lemma SaveInsertsValues(reg: Registry, ts: Tables, s: Snapshot, i: nat)
    requires WellFormed(reg) && s.selfId == Ok(0) && SaveSpec(reg, ts, s).Ok?
    requires s.cls in reg && i < |reg[s.cls].fields| && reg[s.cls].fields[i].name != "id"
    ensures TableOf(reg[s.cls]) in ts
    ensures var t := ts[TableOf(reg[s.cls])];
            var rows' := SaveSpec(reg, ts, s).value.tables[TableOf(reg[s.cls])].rows;
            var f := reg[s.cls].fields[i];
            && |t.rows| < |rows'| && f.name in rows'[|t.rows|] && ColumnValue(s, f).Ok? && BindValue(ColumnValue(s, f).value).Ok?
            && rows'[|t.rows|][f.name] == BindValue(ColumnValue(s, f).value).value
            && (IsReferenceField(f.kind) && s.fields[f.name] != Null ==> rows'[|t.rows|][f.name] == SqlInt(s.ids[f.name].value))
  {
    SaveInsertShape(reg, ts, s);
    InsertedColumn(reg[s.cls].fields, s, ts[TableOf(reg[s.cls])], i);
  }

  /** Saving an entity that has an id keeps the entity's fields, touches
      no table but its own and keeps the store valid. */
  lemma SaveUpdates(reg: Registry, ts: Tables, s: Snapshot)
    requires TablesValid(ts) && s.selfId.Ok? && s.selfId.value != 0 && SaveSpec(reg, ts, s).Ok?
    ensures s.cls in reg && TableOf(reg[s.cls]) in ts
    ensures SaveSpec(reg, ts, s).value.fields == s.fields
    ensures SaveSpec(reg, ts, s).value.tables.Keys == ts.Keys
    ensures forall n :: n in ts && n != TableOf(reg[s.cls]) ==> SaveSpec(reg, ts, s).value.tables[n] == ts[n]
    ensures TablesValid(SaveSpec(reg, ts, s).value.tables)
  {
    SaveUpdateShape(reg, ts, s);
    var fs := reg[s.cls].fields;
    var T := TableOf(reg[s.cls]);
    var t := ts[T];
    var set_ := RowOf(NonIdColumns(fs), BindAll(ColumnValues(fs, s).value).value);
    assert "id" !in set_ && set_.Keys <= t.columns;
    UpdateRowsValid(t, SqlInt(s.selfId.value), set_);
  }

  /** Saving an entity that has an id rewrites the columns of the rows with
      that key and leaves every other row, every key and the row count as
      they were. */
  lemma SaveUpdatesRow(reg: Registry, ts: Tables, s: Snapshot, i: nat, j: nat)
    requires WellFormed(reg) && s.selfId.Ok? && s.selfId.value != 0 && SaveSpec(reg, ts, s).Ok?
    requires s.cls in reg && TableOf(reg[s.cls]) in ts
    requires j < |ts[TableOf(reg[s.cls])].rows| && i < |reg[s.cls].fields|
    ensures var t := ts[TableOf(reg[s.cls])];
            var t' := SaveSpec(reg, ts, s).value.tables[TableOf(reg[s.cls])];
            var f := reg[s.cls].fields[i];
            && |t'.rows| == |t.rows| && Key(t'.rows[j]) == Key(t.rows[j])
            && (!HasId(t.rows[j], s.selfId.value) ==> t'.rows[j] == t.rows[j])
            && (HasId(t.rows[j], s.selfId.value) && f.name != "id" ==>
                  ColumnValue(s, f).Ok? && BindValue(ColumnValue(s, f).value).Ok? && f.name in t'.rows[j]
                  && t'.rows[j][f.name] == BindValue(ColumnValue(s, f).value).value)
  {
    SaveUpdateShape(reg, ts, s);
    var fs := reg[s.cls].fields;
    var set_ := RowOf(NonIdColumns(fs), BindAll(ColumnValues(fs, s).value).value);
    assert "id" !in set_;
    if fs[i].name != "id" {
      BoundColumn(fs, s, i);
    }
  }

  /** The kinds whose values come back from the store unchanged. */
  predicate RoundTrips(k: Kind) {
    k == IntKind || k == LongKind || k == DoubleKind || k == StringKind
  }

  /** A field value of the form the field's kind holds; an entity field
      holds a reference or null. */
  predicate Conforms(k: Kind, v: Value) {
    match k
    case IntKind => v.IntV?
    case LongKind => v.LongV?
    case DoubleKind => v.RealV?
    case StringKind => v.TextV? || v == Null
    case ClassKind(_) => v.Ref? || v == Null
    case _ => false
  }

  /** The class conditions under which a saved entity loads back: a `long`
      key, only int, long, double, String and entity fields, each holding
      a value of its kind. */
  ghost predicate LoadsBack(reg: Registry, s: Snapshot) {
    && WellFormed(reg)
    && s.cls in reg && FieldKind(reg[s.cls].fields, "id") == Some(LongKind)
    && (forall i :: 0 <= i < |reg[s.cls].fields| ==> RoundTrips(reg[s.cls].fields[i].kind) || IsEntityField(reg[s.cls].fields[i].kind))
    && (forall i :: 0 <= i < |reg[s.cls].fields| && reg[s.cls].fields[i].name in s.fields ==>
          Conforms(reg[s.cls].fields[i].kind, s.fields[reg[s.cls].fields[i].name]))
  }

  /** What field `f` of a saved entity loads back as from the store `ts`:
      a scalar field as the value the entity holds after the save (`saved`);
      a null reference as null; any other reference as the instance `get`
      loads under the referenced id, or null when that id is not positive
      or has no row. */
  ghost function SavedSlot(reg: Registry, ts: Tables, f: FieldDecl, s: Snapshot, saved: map<string, Value>, fuel: nat): (r: Result<Slot>) {
    if !IsEntityField(f.kind) then
      if f.name in saved then Ok(Plain(saved[f.name])) else Err
    else if f.name in s.fields && s.fields[f.name] == Null then Ok(Plain(Default(f.kind)))
    else if f.name in s.ids && s.ids[f.name].Ok? then
      var k := s.ids[f.name].value;
      if k <= 0 then Ok(Plain(Default(f.kind)))
      else match Load(reg, ts, f.kind.name, k, fuel)
        case Err => Err
        case Ok(None) => Ok(Plain(Default(f.kind)))
        case Ok(Some(l)) => Ok(Nested(l))
    else Err
  }

  /** A scalar column holding the bound form of a value reads back as that
      value. */
  lemma ScalarSlot(reg: Registry, ts: Tables, f: FieldDecl, row: Row, fuel: nat, v: Value)
    requires RoundTrips(f.kind) && Conforms(f.kind, v)
    requires f.name in row && BindValue(v) == Ok(row[f.name])
    ensures SlotOf(reg, ts, f, row, fuel) == Ok(Plain(v))
  {
  }

  /** One scalar field of a saved new entity, in the row its INSERT
      appends. */
  lemma InsertedSlot(fs: seq<FieldDecl>, s: Snapshot, t: Table, i: nat)
    requires DistinctNames(fs) && FieldKind(fs, "id") == Some(LongKind)
    requires ColumnValues(fs, s).Ok? && BindAll(ColumnValues(fs, s).value).Ok?
    requires forall j :: 0 <= j < |fs| && fs[j].name in s.fields ==> Conforms(fs[j].kind, s.fields[fs[j].name])
    requires i < |fs| && RoundTrips(fs[i].kind)
    ensures var row := NewRow(t, NonIdColumns(fs), BindAll(ColumnValues(fs, s).value).value);
            var saved := s.fields["id" := LongV(t.lastId + 1)];
            && fs[i].name in saved && fs[i].name in row
            && Conforms(fs[i].kind, saved[fs[i].name]) && BindValue(saved[fs[i].name]) == Ok(row[fs[i].name])
  {
    if fs[i].name == "id" {
      var j :| 0 <= j < |fs| && fs[j] == FieldDecl("id", LongKind);
      assert fs[j].name == fs[i].name;
    } else {
      InsertedColumn(fs, s, t, i);
    }
  }

  /** How `save` wrote field `f` of the entity `s` into `row`: a scalar as
      the bound form of the value the entity holds after the save
      (`saved`), a reference as the bound form of its column value. */
  predicate FieldWritten(f: FieldDecl, s: Snapshot, saved: map<string, Value>, row: Row) {
    && f.name in row
    && (RoundTrips(f.kind) || IsEntityField(f.kind))
    && (RoundTrips(f.kind) ==> f.name in saved && Conforms(f.kind, saved[f.name]) && BindValue(saved[f.name]) == Ok(row[f.name]))
    && (IsEntityField(f.kind) ==> RefOkOrNull(s, f) && ColumnValue(s, f).Ok? && BindValue(ColumnValue(s, f).value) == Ok(row[f.name]))
  }

  /** A field written as `FieldWritten` says loads back as `SavedSlot`
      says. */
  lemma ReloadSlot(reg: Registry, ts: Tables, f: FieldDecl, s: Snapshot, saved: map<string, Value>, row: Row, fuel: nat)
    requires FieldWritten(f, s, saved, row)
    ensures SlotOf(reg, ts, f, row, fuel) == SavedSlot(reg, ts, f, s, saved, fuel)
  {
    if RoundTrips(f.kind) {
      ScalarSlot(reg, ts, f, row, fuel, saved[f.name]);
    } else {
      ReferenceSlot(reg, ts, f, s, row, saved, fuel);
    }
  }

  /** Field `i` of a new entity stands in the row its INSERT appends as
      `FieldWritten` says. */
  lemma InsertedWritten(fs: seq<FieldDecl>, s: Snapshot, t: Table, i: nat)
    requires DistinctNames(fs) && FieldKind(fs, "id") == Some(LongKind)
    requires ColumnValues(fs, s).Ok? && BindAll(ColumnValues(fs, s).value).Ok? && RefsOkOrNull(fs, s)
    requires forall j :: 0 <= j < |fs| && fs[j].name in s.fields ==> Conforms(fs[j].kind, s.fields[fs[j].name])
    requires i < |fs| && (RoundTrips(fs[i].kind) || IsEntityField(fs[i].kind))
    ensures FieldWritten(fs[i], s, s.fields["id" := LongV(t.lastId + 1)], NewRow(t, NonIdColumns(fs), BindAll(ColumnValues(fs, s).value).value))
  {
    if RoundTrips(fs[i].kind) {
      InsertedSlot(fs, s, t, i);
    } else {
      FieldKindAt(fs, i);
      InsertedColumn(fs, s, t, i);
      assert RefOkOrNull(s, fs[i]);
    }
  }

  /** A reference column holding the bound form of the reference (NULL for
      null, the referenced id otherwise) loads back as `SavedSlot` says. */
  lemma ReferenceSlot(reg: Registry, ts: Tables, f: FieldDecl, s: Snapshot, row: Row, saved: map<string, Value>, fuel: nat)
    requires IsEntityField(f.kind) && RefOkOrNull(s, f) && ColumnValue(s, f).Ok?
    requires f.name in row && BindValue(ColumnValue(s, f).value) == Ok(row[f.name])
    ensures SlotOf(reg, ts, f, row, fuel) == SavedSlot(reg, ts, f, s, saved, fuel)
  {
  }

  /** What each of the fields `fs` of the entity `s` loads back as from the
      store `ts`, as `SavedSlot` says. */
  ghost function SavedSlots(reg: Registry, ts: Tables, fs: seq<FieldDecl>, s: Snapshot, saved: map<string, Value>, fuel: nat)
    : (rs: seq<Result<Slot>>)
  {
    seq(|fs|, i requires 0 <= i < |fs| => SavedSlot(reg, ts, fs[i], s, saved, fuel))
  }

  /** `get` of the key an INSERT of a new entity generated: it fails
      exactly when some field fails to load back, and otherwise every field
      loads back as `SavedSlot` says. */
  lemma InsertThenLoad(reg: Registry, ts: Tables, s: Snapshot, fuel: nat)
    requires LoadsBack(reg, s) && TablesValid(ts) && fuel > 0 && RefsOkOrNull(reg[s.cls].fields, s)
    requires InsertSpec(ts, TableOf(reg[s.cls]), reg[s.cls].fields, s).Ok?
    ensures TableOf(reg[s.cls]) in ts
    ensures var fs := reg[s.cls].fields;
            var ins := InsertSpec(ts, TableOf(reg[s.cls]), fs, s).value;
            var key := ts[TableOf(reg[s.cls])].lastId + 1;
            && ins.1 == key
            && Load(reg, ins.0, s.cls, key, fuel) == Found(s.cls, AllOk(SavedSlots(reg, ins.0, fs, s, s.fields["id" := LongV(key)], fuel - 1)))
  {
    var T := TableOf(reg[s.cls]);
    var row := InsertWrites(ts, T, reg[s.cls].fields, s);
    LoadWritten(reg, InsertSpec(ts, T, reg[s.cls].fields, s).value.0, s.cls, ts[T].lastId + 1, fuel, row, s, s.fields["id" := LongV(ts[T].lastId + 1)]);
  }

  /** The INSERT of a new entity into a valid table appends a row, found
      under the generated key, that holds every field as `FieldWritten`
      says. */
  lemma InsertWrites(ts: Tables, T: string, fs: seq<FieldDecl>, s: Snapshot) returns (row: Row)
    requires TablesValid(ts) && InsertSpec(ts, T, fs, s).Ok?
    requires DistinctNames(fs) && FieldKind(fs, "id") == Some(LongKind) && RefsOkOrNull(fs, s)
    requires forall j :: 0 <= j < |fs| && fs[j].name in s.fields ==> Conforms(fs[j].kind, s.fields[fs[j].name])
    requires forall j :: 0 <= j < |fs| ==> RoundTrips(fs[j].kind) || IsEntityField(fs[j].kind)
    ensures T in ts
    ensures var ins := InsertSpec(ts, T, fs, s).value;
            && ins.1 == ts[T].lastId + 1
            && SelectById(ins.0, T, ts[T].lastId + 1) == Ok(Some(row))
    ensures forall i :: 0 <= i < |fs| ==> FieldWritten(fs[i], s, s.fields["id" := LongV(ts[T].lastId + 1)], row)
  {
    row := InsertedRow(ts, T, fs, s);
    InsertedAllWritten(fs, s, ts[T]);
  }

  /** `get` of a key whose row holds every field of the class as
      `FieldWritten` says: what `SavedSlots` describes. */
  lemma LoadWritten(reg: Registry, ts: Tables, t: string, id: int, fuel: nat, row: Row, s: Snapshot, saved: map<string, Value>)
    requires fuel > 0 && t in reg && SelectById(ts, TableOf(reg[t]), id) == Ok(Some(row))
    requires forall i :: 0 <= i < |reg[t].fields| ==> FieldWritten(reg[t].fields[i], s, saved, row)
    ensures Load(reg, ts, t, id, fuel) == Found(t, AllOk(SavedSlots(reg, ts, reg[t].fields, s, saved, fuel - 1)))
  {
    ReloadSlots(reg, ts, t, reg[t].fields, s, saved, row, fuel - 1);
    LoadRowAsWanted(reg, ts, t, id, fuel, row, SavedSlots(reg, ts, reg[t].fields, s, saved, fuel - 1));
  }

  /** Fields all written as `FieldWritten` says load back as `SavedSlots`
      says, so an instance of class `cls` read from that row is the one
      `SavedSlots` describes. */
  lemma ReloadSlots(reg: Registry, ts: Tables, cls: string, fs: seq<FieldDecl>, s: Snapshot, saved: map<string, Value>, row: Row, fuel: nat)
    requires forall i :: 0 <= i < |fs| ==> FieldWritten(fs[i], s, saved, row)
    ensures Found(cls, AllOk(FieldSlots(reg, ts, fs, row, fuel))) == Found(cls, AllOk(SavedSlots(reg, ts, fs, s, saved, fuel)))
  {
    forall i | 0 <= i < |fs| ensures FieldSlots(reg, ts, fs, row, fuel)[i] == SavedSlots(reg, ts, fs, s, saved, fuel)[i] {
      ReloadSlot(reg, ts, fs[i], s, saved, row, fuel);
    }
    assert FieldSlots(reg, ts, fs, row, fuel) == SavedSlots(reg, ts, fs, s, saved, fuel);
  }

  /** Every field of a new entity stands in the row its INSERT appends as
      `FieldWritten` says. */
  lemma InsertedAllWritten(fs: seq<FieldDecl>, s: Snapshot, t: Table)
    requires DistinctNames(fs) && FieldKind(fs, "id") == Some(LongKind)
    requires ColumnValues(fs, s).Ok? && BindAll(ColumnValues(fs, s).value).Ok? && RefsOkOrNull(fs, s)
    requires forall j :: 0 <= j < |fs| && fs[j].name in s.fields ==> Conforms(fs[j].kind, s.fields[fs[j].name])
    requires forall j :: 0 <= j < |fs| ==> RoundTrips(fs[j].kind) || IsEntityField(fs[j].kind)
    ensures var row := NewRow(t, NonIdColumns(fs), BindAll(ColumnValues(fs, s).value).value);
            forall i :: 0 <= i < |fs| ==> FieldWritten(fs[i], s, s.fields["id" := LongV(t.lastId + 1)], row)
  {
    forall i | 0 <= i < |fs|
      ensures FieldWritten(fs[i], s, s.fields["id" := LongV(t.lastId + 1)], NewRow(t, NonIdColumns(fs), BindAll(ColumnValues(fs, s).value).value))
    {
      InsertedWritten(fs, s, t, i);
    }
  }

  /** The INSERT of a new entity into a valid table: the row it appends,
      which the keyed SELECT of the generated key finds. */
  lemma InsertedRow(ts: Tables, T: string, fs: seq<FieldDecl>, s: Snapshot) returns (row: Row)
    requires TablesValid(ts) && InsertSpec(ts, T, fs, s).Ok?
    ensures T in ts && ColumnValues(fs, s).Ok? && BindAll(ColumnValues(fs, s).value).Ok?
    ensures row == NewRow(ts[T], NonIdColumns(fs), BindAll(ColumnValues(fs, s).value).value)
    ensures var ins := InsertSpec(ts, T, fs, s).value;
            && ins.1 == ts[T].lastId + 1
            && ins.0 == ts[T := Table(ts[T].columns, ts[T].rows + [row], ts[T].lastId + 1)]
            && SelectById(ins.0, T, ts[T].lastId + 1) == Ok(Some(row))
  {
    var t := ts[T];
    RunInsertShape(ts, T, NonIdColumns(fs), ColumnValues(fs, s).value);
    row := NewRow(t, NonIdColumns(fs), BindAll(ColumnValues(fs, s).value).value);
    AppendFound(t, row);
  }

  /** Save then get: a new entity is found under its generated key. `get`
      fails exactly when a referenced instance fails to load, and otherwise
      every scalar field holds what the entity now holds and every
      reference field holds the instance `get` loads under the referenced
      id. */
  lemma SaveThenLoad(reg: Registry, ts: Tables, s: Snapshot, fuel: nat)
    requires LoadsBack(reg, s) && TablesValid(ts) && fuel > 0
    requires s.selfId == Ok(0) && SaveSpec(reg, ts, s).Ok?
    ensures TableOf(reg[s.cls]) in ts
    ensures var key := ts[TableOf(reg[s.cls])].lastId + 1;
            var sv := SaveSpec(reg, ts, s).value;
            var fs := reg[s.cls].fields;
            && sv.fields == s.fields["id" := LongV(key)]
            && Load(reg, sv.tables, s.cls, key, fuel) == Found(s.cls, AllOk(SavedSlots(reg, sv.tables, fs, s, sv.fields, fuel - 1)))
  {
    InsertThenLoad(reg, ts, s, fuel);
  }

  /** Save then get for a class of int, long, double and String fields
      only: `get` succeeds and every field holds what the entity now holds. */
  lemma SaveThenLoadScalars(reg: Registry, ts: Tables, s: Snapshot, fuel: nat)
    requires LoadsBack(reg, s) && TablesValid(ts) && fuel > 0
    requires s.selfId == Ok(0) && SaveSpec(reg, ts, s).Ok?
    requires forall i :: 0 <= i < |reg[s.cls].fields| ==> RoundTrips(reg[s.cls].fields[i].kind)
    ensures TableOf(reg[s.cls]) in ts
    ensures var key := ts[TableOf(reg[s.cls])].lastId + 1;
            var sv := SaveSpec(reg, ts, s).value;
            var l := Load(reg, sv.tables, s.cls, key, fuel);
            && l.Ok? && l.value.Some? && l.value.value.cls == s.cls
            && forall i :: 0 <= i < |reg[s.cls].fields| ==>
                 reg[s.cls].fields[i].name in sv.fields && l.value.value.slots[i] == Plain(sv.fields[reg[s.cls].fields[i].name])
  {
    SaveThenLoad(reg, ts, s, fuel);
    ScalarNamesKept(reg, ts, s);
    var sv := SaveSpec(reg, ts, s).value;
    LoadScalars(reg, sv.tables, s.cls, ts[TableOf(reg[s.cls])].lastId + 1, fuel, s, sv.fields);
  }

  /** A `get` that loads what `SavedSlots` describes, for a class whose
      fields are all scalars the entity holds: found, holding those values. */
  lemma LoadScalars(reg: Registry, ts: Tables, t: string, key: int, fuel: nat, s: Snapshot, saved: map<string, Value>)
    requires fuel > 0 && t in reg
    requires Load(reg, ts, t, key, fuel) == Found(t, AllOk(SavedSlots(reg, ts, reg[t].fields, s, saved, fuel - 1)))
    requires forall i :: 0 <= i < |reg[t].fields| ==> RoundTrips(reg[t].fields[i].kind) && reg[t].fields[i].name in saved
    ensures var l := Load(reg, ts, t, key, fuel);
            && l.Ok? && l.value.Some? && l.value.value.cls == t
            && forall i :: 0 <= i < |reg[t].fields| ==> l.value.value.slots[i] == Plain(saved[reg[t].fields[i].name])
  {
    ScalarsFound(reg, ts, t, reg[t].fields, s, saved, fuel - 1);
  }

  /** A new entity keeps, after `save`, a value under the name of every
      int, long, double and String field of its class. */
  lemma ScalarNamesKept(reg: Registry, ts: Tables, s: Snapshot)
    requires LoadsBack(reg, s) && s.selfId == Ok(0) && SaveSpec(reg, ts, s).Ok?
    ensures forall i :: 0 <= i < |reg[s.cls].fields| && RoundTrips(reg[s.cls].fields[i].kind) ==>
              reg[s.cls].fields[i].name in SaveSpec(reg, ts, s).value.fields
  {
    SaveInsertShape(reg, ts, s);
    var fs := reg[s.cls].fields;
    var t := ts[TableOf(reg[s.cls])];
    forall i | 0 <= i < |fs| && RoundTrips(fs[i].kind) ensures fs[i].name in s.fields["id" := LongV(t.lastId + 1)] {
      InsertedSlot(fs, s, t, i);
    }
  }

  /** Fields that are all scalars the entity holds load back as those
      values: the instance read is found and holds exactly them. */
  lemma ScalarsFound(reg: Registry, ts: Tables, cls: string, fs: seq<FieldDecl>, s: Snapshot, saved: map<string, Value>, fuel: nat)
    requires forall i :: 0 <= i < |fs| ==> RoundTrips(fs[i].kind) && fs[i].name in saved
    ensures var r := Found(cls, AllOk(SavedSlots(reg, ts, fs, s, saved, fuel)));
            && r.Ok? && r.value.Some? && r.value.value.cls == cls && |r.value.value.slots| == |fs|
            && forall i :: 0 <= i < |fs| ==> r.value.value.slots[i] == Plain(saved[fs[i].name])
  {
    var want := SavedSlots(reg, ts, fs, s, saved, fuel);
    assert forall i :: 0 <= i < |fs| ==> want[i] == Ok(Plain(saved[fs[i].name]));
    FoundAllOk(cls, want);
  }

  /** The corrected `save` agrees with `SaveSpec` wherever `SaveSpec`
      succeeds, and everywhere when no reference field holds null. */
  lemma SaveIntendedAgrees(reg: Registry, ts: Tables, s: Snapshot)
    ensures SaveSpec(reg, ts, s).Ok? ==> SaveIntended(reg, ts, s) == SaveSpec(reg, ts, s)
    ensures s.cls in reg
            && (forall i :: 0 <= i < |reg[s.cls].fields| && IsReferenceField(reg[s.cls].fields[i].kind) && reg[s.cls].fields[i].name in s.fields
                  ==> s.fields[reg[s.cls].fields[i].name] != Null)
            ==> SaveIntended(reg, ts, s) == SaveSpec(reg, ts, s)
  {
    if s.cls in reg {
      var fs := reg[s.cls].fields;
      if forall i :: 0 <= i < |fs| && IsReferenceField(fs[i].kind) && fs[i].name in s.fields ==> s.fields[fs[i].name] != Null {
        assert RefsOkOrNull(fs, s) <==> RefsOk(fs, s);
      }
    }
  }

  /** Save then get under the corrected `save`: a reference field holding
      null is stored as NULL, and loads back as null. */
  lemma SaveIntendedThenLoad(reg: Registry, ts: Tables, s: Snapshot, fuel: nat)
    requires LoadsBack(reg, s) && TablesValid(ts) && fuel > 0
    requires s.selfId == Ok(0) && SaveIntended(reg, ts, s).Ok?
    ensures TableOf(reg[s.cls]) in ts
    ensures var key := ts[TableOf(reg[s.cls])].lastId + 1;
            var sv := SaveIntended(reg, ts, s).value;
            var fs := reg[s.cls].fields;
            && sv.fields == s.fields["id" := LongV(key)]
            && Load(reg, sv.tables, s.cls, key, fuel) == Found(s.cls, AllOk(SavedSlots(reg, sv.tables, fs, s, sv.fields, fuel - 1)))
  {
    InsertThenLoad(reg, ts, s, fuel);
  }

  /** Under the corrected `save`, a new entity with a null reference field
      is saved: its column in the new row is NULL, and a later `get` leaves
      the field at its default, null. */
  lemma NullReferenceSavesNull(reg: Registry, ts: Tables, s: Snapshot, i: nat, fuel: nat)
    requires LoadsBack(reg, s) && TablesValid(ts) && fuel > 0
    requires s.selfId == Ok(0) && SaveIntended(reg, ts, s).Ok?
    requires i < |reg[s.cls].fields| && IsEntityField(reg[s.cls].fields[i].kind)
    requires reg[s.cls].fields[i].name in s.fields && s.fields[reg[s.cls].fields[i].name] == Null
    ensures TableOf(reg[s.cls]) in ts
    ensures var T := TableOf(reg[s.cls]);
            var t := ts[T];
            var f := reg[s.cls].fields[i];
            var sv := SaveIntended(reg, ts, s).value;
            var l := Load(reg, sv.tables, s.cls, t.lastId + 1, fuel);
            && |sv.tables[T].rows| == |t.rows| + 1 && f.name in sv.tables[T].rows[|t.rows|]
            && sv.tables[T].rows[|t.rows|][f.name] == SqlNull
            && (l.Ok? ==> l.value.Some? && l.value.value.slots[i] == Plain(Default(f.kind)))
  {
    NullColumnStored(reg, ts, s, i);
    SaveIntendedThenLoad(reg, ts, s, fuel);
    var sv := SaveIntended(reg, ts, s).value;
    var want := SavedSlots(reg, sv.tables, reg[s.cls].fields, s, sv.fields, fuel - 1);
    FoundAllOk(s.cls, want);
  }

  /** Under the corrected `save`, the column of a null reference field of a
      new entity holds NULL in the appended row. */
  lemma NullColumnStored(reg: Registry, ts: Tables, s: Snapshot, i: nat)
    requires LoadsBack(reg, s) && TablesValid(ts)
    requires s.selfId == Ok(0) && SaveIntended(reg, ts, s).Ok?
    requires i < |reg[s.cls].fields| && IsEntityField(reg[s.cls].fields[i].kind)
    requires reg[s.cls].fields[i].name in s.fields && s.fields[reg[s.cls].fields[i].name] == Null
    ensures TableOf(reg[s.cls]) in ts
    ensures var T := TableOf(reg[s.cls]);
            var t := ts[T];
            var f := reg[s.cls].fields[i];
            var sv := SaveIntended(reg, ts, s).value;
            && |sv.tables[T].rows| == |t.rows| + 1 && f.name in sv.tables[T].rows[|t.rows|]
            && sv.tables[T].rows[|t.rows|][f.name] == SqlNull
  {
    var fs := reg[s.cls].fields;
    var T := TableOf(reg[s.cls]);
    var t := ts[T];
    RunInsertShape(ts, T, NonIdColumns(fs), ColumnValues(fs, s).value);
    FieldKindAt(fs, i);
    InsertedColumn(fs, s, t, i);
  }

  /** `get` of a row whose scalar columns hold the bound forms of `vals`
      yields `vals`. */
  lemma LoadStored(reg: Registry, ts: Tables, t: string, key: int, fuel: nat, row: Row, vals: map<string, Value>)
    requires fuel > 0 && t in reg && SelectById(ts, TableOf(reg[t]), key) == Ok(Some(row))
    requires forall i :: 0 <= i < |reg[t].fields| ==> RoundTrips(reg[t].fields[i].kind)
    requires forall i :: 0 <= i < |reg[t].fields| ==>
               var f := reg[t].fields[i];
               f.name in vals && f.name in row && Conforms(f.kind, vals[f.name]) && BindValue(vals[f.name]) == Ok(row[f.name])
    ensures var l := Load(reg, ts, t, key, fuel);
            && l.Ok? && l.value.Some? && l.value.value.cls == t
            && forall i :: 0 <= i < |reg[t].fields| ==> l.value.value.slots[i] == Plain(vals[reg[t].fields[i].name])
  {
    var fs := reg[t].fields;
    forall i | 0 <= i < |fs| ensures SlotOf(reg, ts, fs[i], row, fuel - 1) == Ok(Plain(vals[fs[i].name])) {
      ScalarSlot(reg, ts, fs[i], row, fuel - 1, vals[fs[i].name]);
    }
    LoadFacts.PopulatedAs(reg, ts, fs, row, fuel - 1, vals);
    LoadFromRow(reg, ts, t, key, fuel, row);
  }

  /** Deleting rows by key in a valid table removes exactly one row when one
      has the key. */
  lemma {:induction false} WithoutIdRemovesOne(rows: seq<Row>, id: int)
    requires DistinctKeys(rows) && exists j :: 0 <= j < |rows| && HasId(rows[j], id)
    ensures |WithoutId(rows, id)| == |rows| - 1
  {
    var n := |rows| - 1;
    var p := rows[..n];
    assert DistinctKeys(p) by {
      forall a, b | 0 <= a < b < n ensures Key(p[a]) != Key(p[b]) {
        assert p[a] == rows[a] && p[b] == rows[b];
      }
    }
    if HasId(rows[n], id) {
      forall a | 0 <= a < n ensures !HasId(p[a], id) {
        assert p[a] == rows[a];
      }
      WithoutIdNone(p, id);
      assert WithoutId(rows, id) == p;
    } else {
      var j :| 0 <= j < |rows| && HasId(rows[j], id);
      assert j < n && p[j] == rows[j];
      WithoutIdRemovesOne(p, id);
      assert WithoutId(rows, id) == WithoutId(p, id) + [rows[n]];
    }
  }

  /** After a successful `delete`, its table has one row fewer, `get` finds
      nothing under the deleted key, and no other table changed. */
  lemma DeleteThenLoad(reg: Registry, ts: Tables, cls: string, fields: map<string, Value>, fuel: nat)
    requires TablesValid(ts) && fuel > 0 && DeleteSpec(reg, ts, cls, fields).Ok?
    ensures cls in reg && TableOf(reg[cls]) in ts && DeleteKey(reg[cls], fields).Ok?
    ensures var ts' := DeleteSpec(reg, ts, cls, fields).value;
            && |ts'[TableOf(reg[cls])].rows| == |ts[TableOf(reg[cls])].rows| - 1
            && Load(reg, ts', cls, DeleteKey(reg[cls], fields).value, fuel) == Ok(None)
            && (forall n :: n in ts && n != TableOf(reg[cls]) ==> ts'[n] == ts[n])
            && TablesValid(ts')
  {
    var T := TableOf(reg[cls]);
    var id := DeleteKey(reg[cls], fields).value;
    var ts' := DeleteSpec(reg, ts, cls, fields).value;
    WithoutIdRemovesOne(ts[T].rows, id);
    forall j | 0 <= j < |ts'[T].rows| ensures !HasId(ts'[T].rows[j], id) {
      assert ts'[T].rows[j] in ts'[T].rows;
    }
    DeleteKeepsValid(ts, T, id);
  }
}
