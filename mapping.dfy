/** The mapping engine's meaning as functions of the store: what `get` and
    `getAll` load, what `save` and `delete` leave in the store. The methods of
    `Manager.PersistenceManager` are proved to compute exactly these. */
module Mapping {
  import opened Wrappers
  import opened Metadata
  import opened Backend
  import SqlText

  /** The runtime table of a class: its simple name in double quotes. The
      table annotation (`c.table`) is not consulted. */
  function TableOf(c: ClassDesc): (r: string)
    ensures r == SqlText.Quote(c.simpleName)
  {
    "\"" + c.simpleName + "\""
  }

  // ---------------------------------------------------------------------
  // Reading rows into instances

  /** `rs.getObject(name)` then `field.set(instance, value)`: the driver hands
      back an Integer, a Double or a String, and reflection stores it only
      where Java's unboxing and widening allow (so a Double never goes into a
      `float`, and nothing goes into a `boolean` or a Collection). */
  function Assign(k: Kind, v: SqlValue): (r: Result<Value>)
    ensures r.Ok? ==> !IsReferenceField(k)
    ensures r.Ok? <==> || (v.SqlInt? && (k == IntKind || k == LongKind || k == DoubleKind || k == FloatKind))
                       || (v.SqlReal? && k == DoubleKind)
                       || (v.SqlText? && k == StringKind)
    ensures k == IntKind && v.SqlInt? ==> r == Ok(IntV(v.n))
    ensures k == LongKind && v.SqlInt? ==> r == Ok(LongV(v.n))
    ensures (k == DoubleKind || k == FloatKind) && v.SqlInt? ==> r == Ok(RealV(v.n as real))
    ensures k == DoubleKind && v.SqlReal? ==> r == Ok(RealV(v.r))
    ensures k == StringKind && v.SqlText? ==> r == Ok(TextV(v.s))
    ensures k == BooleanKind || v == SqlNull ==> r.Err?
  {
    match (k, v)
    case (IntKind, SqlInt(n)) => Ok(IntV(n))
    case (LongKind, SqlInt(n)) => Ok(LongV(n))
    case (DoubleKind, SqlInt(n)) => Ok(RealV(n as real))
    case (DoubleKind, SqlReal(x)) => Ok(RealV(x))
    case (FloatKind, SqlInt(n)) => Ok(RealV(n as real))
    case (StringKind, SqlText(s)) => Ok(TextV(s))
    case _ => Err
  }

  /** `rs.getLong(name)`: SQL NULL reads as 0. */
  function GetLong(v: SqlValue): (r: Result<int>)
    ensures v == SqlNull ==> r == Ok(0)
    ensures v.SqlInt? ==> r == Ok(v.n)
  {
    match v
    case SqlNull => Ok(0)
    case SqlInt(n) => Ok(n)
    case _ => Err
  }

  /** One field of a loaded instance: a plain value, or a loaded referenced
      instance. */
  datatype Slot = Plain(v: Value) | Nested(obj: Loaded)

  /** A loaded instance: its class and one slot per declared field, in
      declaration order. */
  datatype Loaded = Loaded(cls: string, slots: seq<Slot>)

  /** `get(t, id)`: `SELECT * FROM "t" WHERE id = ?`, then a fresh instance
      populated from the first row. `fuel` bounds the nesting of the
      recursive `get` calls; running out stands for the call stack
      overflowing, since the source has no cycle guard. */
  function Load(reg: Registry, ts: Tables, t: string, id: int, fuel: nat): (r: Result<Option<Loaded>>)
    ensures fuel > 0 && t in reg ==>
              (r == Ok(None) <==> TableOf(reg[t]) in ts && forall j :: 0 <= j < |ts[TableOf(reg[t])].rows| ==> !HasId(ts[TableOf(reg[t])].rows[j], id))
    ensures r.Ok? && r.value.Some? ==> t in reg && r.value.value.cls == t && |r.value.value.slots| == |reg[t].fields|
    decreases fuel, 0, 0
  {
    if fuel == 0 || t !in reg then Err
    else
      var row :- SelectById(ts, TableOf(reg[t]), id);
      match row
      case None => Ok(None)
      case Some(r) =>
        var slots :- PopulateSeq(reg, ts, reg[t].fields, r, fuel - 1);
        Ok(Some(Loaded(t, slots)))
  }

  /** `populateEntityFromResultSet` over the fields `fs`, in order; the first
      failure aborts. */
  function PopulateSeq(reg: Registry, ts: Tables, fs: seq<FieldDecl>, row: Row, fuel: nat): (r: Result<seq<Slot>>)
    ensures r.Ok? ==> |r.value| == |fs|
    decreases fuel, 1, |fs|
  {
    if fs == [] then Ok([])
    else
      var init :- PopulateSeq(reg, ts, fs[..|fs| - 1], row, fuel);
      var s :- SlotOf(reg, ts, fs[|fs| - 1], row, fuel);
      Ok(init + [s])
  }

  /** One field. An entity field reads its column as a long: a positive value
      is loaded recursively and kept only if found; anything else leaves the
      field as constructed. Every other field (the key included) takes the
      column's value when it is not NULL. A missing column is an error. */
  function SlotOf(reg: Registry, ts: Tables, f: FieldDecl, row: Row, fuel: nat): (r: Result<Slot>)
    ensures r.Ok? ==> f.name in row
    ensures f.name in row && row[f.name] == SqlNull ==> r == Ok(Plain(Default(f.kind)))
    ensures r.Ok? && r.value.Nested? ==> IsEntityField(f.kind) && f.kind.name in reg && r.value.obj.cls == f.kind.name
    ensures r.Ok? && !IsEntityField(f.kind) && row[f.name] != SqlNull ==> Assign(f.kind, row[f.name]) == Ok(r.value.v)
    decreases fuel, 1, 0
  {
    if f.name !in row then Err
    else if IsEntityField(f.kind) then
      var n :- GetLong(row[f.name]);
      if n <= 0 then Ok(Plain(Default(f.kind)))
      else
        var sub :- Load(reg, ts, f.kind.name, n, fuel);
        match sub
        case None => Ok(Plain(Default(f.kind)))
        case Some(l) => Ok(Nested(l))
    else if row[f.name] == SqlNull then Ok(Plain(Default(f.kind)))
    else
      var v :- Assign(f.kind, row[f.name]);
      Ok(Plain(v))
  }

  /** `getAll(t)`: every row of `SELECT * FROM "t"`, in table order. */
  function LoadAll(reg: Registry, ts: Tables, t: string, fuel: nat): (r: Result<seq<Loaded>>)
    ensures r.Ok? ==> t in reg && TableOf(reg[t]) in ts && |r.value| == |ts[TableOf(reg[t])].rows|
    ensures t in reg && TableOf(reg[t]) in ts && ts[TableOf(reg[t])].rows == [] ==> r == Ok([])
  {
    if t !in reg then Err
    else
      var rows :- SelectAll(ts, TableOf(reg[t]));
      PopulateRows(reg, ts, t, rows, fuel)
  }

  function PopulateRows(reg: Registry, ts: Tables, t: string, rows: seq<Row>, fuel: nat): (r: Result<seq<Loaded>>)
    requires t in reg
    ensures r.Ok? ==> |r.value| == |rows|
  {
    if rows == [] then Ok([])
    else
      var init :- PopulateRows(reg, ts, t, rows[..|rows| - 1], fuel);
      var slots :- PopulateSeq(reg, ts, reg[t].fields, rows[|rows| - 1], fuel);
      Ok(init + [Loaded(t, slots)])
  }

  // ---------------------------------------------------------------------
  // Saving

  /** `getEntityId`: the `id` field of the referenced instance, read as a
      `Long`. A null reference, an object without an `id` field (a
      Collection, say) and an `id` that is not a `long` are all errors. */
  function EntityId(reg: Registry, v: Value): (r: Result<int>)
    reads if v.Ref? then {v.obj} else {}
    ensures r.Ok? ==> v.Ref? && v.obj.cls in reg && FieldKind(reg[v.obj.cls].fields, "id") == Some(LongKind)
                      && "id" in v.obj.fields && v.obj.fields["id"] == LongV(r.value)
    ensures v == Null ==> r.Err?
    ensures (v.Ref? && v.obj.cls in reg && FieldKind(reg[v.obj.cls].fields, "id") == Some(LongKind)
             && "id" in v.obj.fields && v.obj.fields["id"].LongV?) ==> r == Ok(v.obj.fields["id"].l)
  {
    if v.Ref? && v.obj.cls in reg && FieldKind(reg[v.obj.cls].fields, "id") == Some(LongKind)
       && "id" in v.obj.fields && v.obj.fields["id"].LongV?
    then Ok(v.obj.fields["id"].l)
    else Err
  }

  /** The instances an entity refers to directly. */
  function Targets(e: Entity): (ts: set<Entity>)
    reads e
  {
    set f | f in e.fields && e.fields[f].Ref? :: e.fields[f].obj
  }

  /** What `save` reads of an entity before it writes anything: its class,
      its fields, `getEntityId` of each field's value and of itself. */
  datatype Snapshot = Snapshot(cls: string, fields: map<string, Value>, ids: map<string, Result<int>>, selfId: Result<int>)

  function Snap(reg: Registry, e: Entity): (s: Snapshot)
    reads e, Targets(e)
    ensures s.cls == e.cls && s.fields == e.fields && s.ids.Keys == e.fields.Keys
  {
    Snapshot(e.cls, e.fields, map f | f in e.fields :: EntityId(reg, e.fields[f]), EntityId(reg, Ref(e)))
  }

  /** The check `save` makes on one reference field: the referenced id must
      be readable and non-zero. */
  predicate RefOk(s: Snapshot, f: FieldDecl) {
    f.name in s.ids && s.ids[f.name].Ok? && s.ids[f.name].value != 0
  }

  predicate RefsOk(fs: seq<FieldDecl>, s: Snapshot) {
    forall i :: 0 <= i < |fs| && IsReferenceField(fs[i].kind) ==> RefOk(s, fs[i])
  }

  /** The columns of INSERT and UPDATE: every declared field but `id`, in
      declaration order. */
  function NonIdColumns(fs: seq<FieldDecl>): (r: seq<string>)
    ensures |r| <= |fs|
    ensures forall c :: c in r ==> c != "id"
  {
    if fs == [] then []
    else NonIdColumns(fs[..|fs| - 1]) + (if fs[|fs| - 1].name == "id" then [] else [fs[|fs| - 1].name])
  }

  /** The value bound for one column: the field's value, or for a non-null
      reference field the referenced instance's id. */
  function ColumnValue(s: Snapshot, f: FieldDecl): (r: Result<Value>)
    ensures r.Ok? ==> f.name in s.fields
    ensures r.Ok? && IsReferenceField(f.kind) && s.fields[f.name] != Null ==>
              f.name in s.ids && s.ids[f.name].Ok? && r.value == LongV(s.ids[f.name].value)
    ensures r.Ok? && !(IsReferenceField(f.kind) && s.fields[f.name] != Null) ==> r.value == s.fields[f.name]
    ensures (f.name in s.fields && !(IsReferenceField(f.kind) && s.fields[f.name] != Null)) ==> r.Ok?
  {
    if f.name !in s.fields then Err
    else if IsReferenceField(f.kind) && s.fields[f.name] != Null then
      if f.name in s.ids && s.ids[f.name].Ok? then Ok(LongV(s.ids[f.name].value)) else Err
    else Ok(s.fields[f.name])
  }

  /** The values list of `insertEntity` and `updateEntity` (before the key). */
  function ColumnValues(fs: seq<FieldDecl>, s: Snapshot): (r: Result<seq<Value>>)
    ensures r.Ok? ==> |r.value| == |NonIdColumns(fs)|
  {
    if fs == [] then Ok([])
    else
      var init :- ColumnValues(fs[..|fs| - 1], s);
      var f := fs[|fs| - 1];
      if f.name == "id" then Ok(init)
      else
        var v :- ColumnValue(s, f);
        Ok(init + [v])
  }

  /** `stmt.setObject(i, value)`: a boolean is stored as 0 or 1. The model
      refuses a Collection or an entity; `save` never passes one, since
      `ColumnValue` replaces each reference by its key. */
  function BindValue(v: Value): (r: Result<SqlValue>)
    ensures r.Err? <==> v == CollV || v.Ref?
    ensures v == Null ==> r == Ok(SqlNull)
  {
    match v
    case Null => Ok(SqlNull)
    case IntV(n) => Ok(SqlInt(n))
    case LongV(n) => Ok(SqlInt(n))
    case RealV(x) => Ok(SqlReal(x))
    case BoolV(b) => Ok(SqlInt(if b then 1 else 0))
    case TextV(t) => Ok(SqlText(t))
    case CollV => Err
    case Ref(_) => Err
  }

  function BindAll(vs: seq<Value>): (r: Result<seq<SqlValue>>)
    ensures r.Ok? ==> |r.value| == |vs|
    ensures r.Ok? ==> forall i :: 0 <= i < |vs| ==> BindValue(vs[i]) == Ok(r.value[i])
    ensures r.Err? <==> exists i :: 0 <= i < |vs| && BindValue(vs[i]).Err?
  {
    if vs == [] then Ok([])
    else
      var init := BindAll(vs[..|vs| - 1]);
      var last := BindValue(vs[|vs| - 1]);
      assert forall i :: 0 <= i < |vs| - 1 ==> vs[..|vs| - 1][i] == vs[i];
      if init.Err? || last.Err? then Err
      else Ok(init.value + [last.value])
  }

  /** `executeInsert`'s checks on what the driver reports: some row affected
      and a generated key returned. */
  function InsertOutcome(affected: nat, key: Option<int>): (r: Result<int>)
    ensures r.Ok? <==> affected > 0 && key.Some?
    ensures r.Ok? ==> r.value == key.value
  {
    if affected == 0 then Err
    else match key
      case None => Err
      case Some(k) => Ok(k)
  }

  /** `executeInsert(sql, values)`: bind each value in turn, run the
      INSERT, and read back the generated key; no row affected or no key is
      an error. */
  function RunInsert(ts: Tables, table: string, cols: seq<string>, vals: seq<Value>): (r: Result<(Tables, int)>)
    ensures r.Ok? ==> table in ts && r.value.1 == ts[table].lastId + 1 && r.value.0.Keys == ts.Keys
  {
    var params :- BindAll(vals);
    var a :- Insert(ts, table, cols, params);
    var key :- InsertOutcome(a.affected, a.key);
    Ok((a.tables, key))
  }

  /** `executeUpdate(sql, values)`: bind each value in turn and run the
      UPDATE; the number of rows matched is not looked at. */
  function RunUpdate(ts: Tables, table: string, cols: seq<string>, vals: seq<Value>): (r: Result<Tables>)
    ensures r.Ok? ==> table in ts && r.value.Keys == ts.Keys && |r.value[table].rows| == |ts[table].rows|
  {
    var params :- BindAll(vals);
    var u :- Update(ts, table, cols, params);
    Ok(u.0)
  }

  /** `insertEntity`: the non-id columns and their values, inserted. */
  function InsertSpec(ts: Tables, table: string, fs: seq<FieldDecl>, s: Snapshot): (r: Result<(Tables, int)>)
    ensures r.Ok? ==> ColumnValues(fs, s).Ok?
  {
    var vals :- ColumnValues(fs, s);
    RunInsert(ts, table, NonIdColumns(fs), vals)
  }

  /** `updateEntity`: the non-id columns and their values, then the key for
      `WHERE id = ?`. */
  function UpdateSpec(ts: Tables, table: string, fs: seq<FieldDecl>, s: Snapshot, id: int): (r: Result<Tables>)
    ensures r.Ok? ==> ColumnValues(fs, s).Ok?
  {
    var vals :- ColumnValues(fs, s);
    RunUpdate(ts, table, NonIdColumns(fs), vals + [LongV(id)])
  }

  /** What a successful `save` leaves: the store and the entity's fields. */
  datatype Saved = Saved(tables: Tables, fields: map<string, Value>)

  /** `save(entity)`: read the entity's id; check every reference field; with
      id 0 insert and write the generated key into `id`, otherwise update
      the row with that id. */
  function SaveSpec(reg: Registry, ts: Tables, s: Snapshot): (r: Result<Saved>)
    ensures r.Ok? ==> s.cls in reg && s.selfId.Ok? && RefsOk(reg[s.cls].fields, s)
    ensures r.Ok? && s.selfId.value != 0 ==> r.value.fields == s.fields
  {
    if s.cls !in reg then Err
    else
      var c := reg[s.cls];
      var id :- s.selfId;
      if !RefsOk(c.fields, s) then Err
      else if id == 0 then
        var ins :- InsertSpec(ts, TableOf(c), c.fields, s);
        Ok(Saved(ins.0, s.fields["id" := LongV(ins.1)]))
      else
        var tables :- UpdateSpec(ts, TableOf(c), c.fields, s, id);
        Ok(Saved(tables, s.fields))
  }

  /** The check on a reference field that the tests of `save` expect: a
      null reference is accepted, and its column is then bound to NULL;
      any other reference must have a readable, non-zero id. */
  predicate RefOkOrNull(s: Snapshot, f: FieldDecl) {
    (f.name in s.fields && s.fields[f.name] == Null) || RefOk(s, f)
  }

  predicate RefsOkOrNull(fs: seq<FieldDecl>, s: Snapshot) {
    forall i :: 0 <= i < |fs| && IsReferenceField(fs[i].kind) ==> RefOkOrNull(s, fs[i])
  }

  /** `save` as its tests expect it to behave: the same as `SaveSpec`,
      except that a reference field holding null does not make it fail. */
  function SaveIntended(reg: Registry, ts: Tables, s: Snapshot): (r: Result<Saved>)
    ensures r.Ok? ==> s.cls in reg && s.selfId.Ok? && RefsOkOrNull(reg[s.cls].fields, s)
    ensures r.Ok? && s.selfId.value != 0 ==> r.value.fields == s.fields
  {
    if s.cls !in reg then Err
    else
      var c := reg[s.cls];
      var id :- s.selfId;
      if !RefsOkOrNull(c.fields, s) then Err
      else if id == 0 then
        var ins :- InsertSpec(ts, TableOf(c), c.fields, s);
        Ok(Saved(ins.0, s.fields["id" := LongV(ins.1)]))
      else
        var tables :- UpdateSpec(ts, TableOf(c), c.fields, s, id);
        Ok(Saved(tables, s.fields))
  }

  // ---------------------------------------------------------------------
  // Deleting

  /** `idField.getLong(entity)`: an `int` or `long` id widens to a long;
      a class without an `id` field, or with one of another kind, fails. */
  function DeleteKey(c: ClassDesc, fields: map<string, Value>): (r: Result<int>)
    ensures r.Ok? ==> FieldKind(c.fields, "id") in {Some(IntKind), Some(LongKind)}
    ensures r.Ok? ==> "id" in fields && fields["id"] in {IntV(r.value), LongV(r.value)}
  {
    var k := FieldKind(c.fields, "id");
    if (k == Some(IntKind) || k == Some(LongKind)) && "id" in fields then
      match fields["id"]
      case IntV(n) => Ok(n)
      case LongV(n) => Ok(n)
      case _ => Err
    else Err
  }

  /** `delete(entity)`: `DELETE FROM "t" WHERE id = ?`; no row affected is an
      error. */
  function DeleteSpec(reg: Registry, ts: Tables, cls: string, fields: map<string, Value>): (r: Result<Tables>)
    ensures r.Ok? ==> cls in reg && DeleteKey(reg[cls], fields).Ok? && TableOf(reg[cls]) in ts
    ensures r.Ok? ==> exists j :: 0 <= j < |ts[TableOf(reg[cls])].rows| && HasId(ts[TableOf(reg[cls])].rows[j], DeleteKey(reg[cls], fields).value)
    ensures cls in reg && DeleteKey(reg[cls], fields).Ok? && TableOf(reg[cls]) in ts
            && (exists j :: 0 <= j < |ts[TableOf(reg[cls])].rows| && HasId(ts[TableOf(reg[cls])].rows[j], DeleteKey(reg[cls], fields).value))
            ==> r.Ok?
  {
    if cls !in reg then Err
    else
      var id :- DeleteKey(reg[cls], fields);
      var d :- Delete(ts, TableOf(reg[cls]), id);
      if d.1 == 0 then Err else Ok(d.0)
  }
}
